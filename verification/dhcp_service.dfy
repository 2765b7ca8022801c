/** The lease tables and the service that updates them, proved to do what Dhcp says. */
module DhcpService {
  import opened Wrappers
  import opened Ipv4
  import opened Dhcp

  /** Among some rows one expires first. */
  lemma {:induction false} EarliestOf(active: map<Mac, ActiveLease>, macs: set<Mac>) returns (m: Mac)
    requires macs != {} && macs <= active.Keys
    ensures m in macs && forall n :: n in macs ==> active[m].expiresAt <= active[n].expiresAt
    decreases macs
  {
    m :| m in macs;
    var rest := macs - {m};
    assert forall k :: k in macs ==> k == m || k in rest;
    if rest != {} {
      var n := EarliestOf(active, rest);
      if active[n].expiresAt < active[m].expiresAt {
        m := n;
      }
    }
  }

  class LeaseRepository {
    var statics: seq<StaticLease>
    var active: map<Mac, ActiveLease>

    constructor (statics: seq<StaticLease>)
      ensures Valid() && Contents() == Store(statics, map[])
    {
      this.statics, active := statics, map[];
    }

    /** Every row is filed under its own MAC. */
    ghost predicate Valid()
      reads this
    {
      forall m :: m in active ==> active[m].mac == m
    }

    ghost function Contents(): Store
      reads this
    {
      Store(statics, active)
    }

    /** All active rows, once each, by rising expiry; nothing when the read fails. */
    method ListActiveLeases(ok: bool) returns (rows: seq<ActiveLease>)
      requires Valid()
      ensures forall r :: r in rows <==> ok && r.mac in active && active[r.mac] == r
      ensures forall i, j :: 0 <= i < j < |rows| ==>
                rows[i].mac != rows[j].mac && rows[i].expiresAt <= rows[j].expiresAt
    {
      rows := [];
      if ok {
        var todo := active.Keys;
        while todo != {}
          invariant todo <= active.Keys
          invariant forall r :: r in rows <==> r.mac in active && r.mac !in todo && active[r.mac] == r
          invariant forall i, m :: 0 <= i < |rows| && m in todo ==> rows[i].expiresAt <= active[m].expiresAt
          invariant forall i, j :: 0 <= i < j < |rows| ==>
                      rows[i].mac != rows[j].mac && rows[i].expiresAt <= rows[j].expiresAt
          decreases todo
        {
          var _ := EarliestOf(active, todo);
          var m :| m in todo && forall n :: n in todo ==> active[m].expiresAt <= active[n].expiresAt;
          assert forall i :: 0 <= i < |rows| ==> rows[i] in rows;
          rows := rows + [active[m]];
          todo := todo - {m};
        }
      }
    }

    method ListStaticLeases(ok: bool) returns (rows: seq<StaticLease>)
      ensures rows == if ok then statics else []
    {
      rows := if ok then statics else [];
    }

    /** Creates or overwrites the row of the lease's MAC, unless another MAC has the address. */
    method CreateOrUpdateActiveLease(lease: ActiveLease, ok: bool) returns (done: bool)
      requires Valid()
      modifies this`active
      ensures Valid() && (active, done) == Upsert(old(active), lease, ok)
    {
      done := ok && !Conflicts(active, lease.mac, lease.ip);
      if done {
        active := active[lease.mac := lease];
      }
    }

    method DeleteExpiredLeases(now: int)
      requires Valid()
      modifies this`active
      ensures Valid() && Contents() == Sweep(old(Contents()), now)
    {
      active := map m | m in active && active[m].expiresAt >= now :: active[m];
    }
  }

  class LeaseService {
    const repository: LeaseRepository
    const config: Config

    constructor (repository: LeaseRepository, config: Config)
      ensures this.repository == repository && this.config == config
    {
      this.repository, this.config := repository, config;
    }

    method FindStatic(rows: seq<StaticLease>, mac: Mac) returns (row: Option<StaticLease>)
      ensures row == StaticFor(rows, mac)
    {
      for i := 0 to |rows|
        invariant StaticFor(rows, mac) == StaticFor(rows[i..], mac)
      {
        if rows[i].mac == mac && rows[i].enabled {
          return Some(rows[i]);
        }
      }
      row := None;
    }

    method UsedIPs(statics: seq<StaticLease>, active: seq<ActiveLease>, now: int) returns (used: set<Address>)
      ensures used == StaticAddresses(statics) + set l | l in active && l.expiresAt > now :: l.ip
    {
      used := {};
      for i := 0 to |statics|
        invariant used == set l | l in statics[..i] :: l.ip.addr
      {
        used := used + {statics[i].ip.addr};
        assert statics[..i + 1] == statics[..i] + [statics[i]];
      }
      assert statics[..|statics|] == statics;
      for i := 0 to |active|
        invariant used == StaticAddresses(statics) + set l | l in active[..i] && l.expiresAt > now :: l.ip
      {
        if active[i].expiresAt > now {
          used := used + {active[i].ip};
        }
        assert active[..i + 1] == active[..i] + [active[i]];
      }
      assert active[..|active|] == active;
    }

    /** The scan over byte addresses, up to the one after end, with wrap-around. */
    method ScanRange(start: array<byte>, end: array<byte>, used: set<Address>) returns (found: Option<Address>)
      requires start.Length == end.Length == 4
      ensures found == FirstFree(QuadValue(start[..]), RangeSize(QuadValue(start[..]), QuadValue(end[..])), used)
      ensures FindsFirst(QuadValue(start[..]), QuadValue(end[..]), used, found)
    {
      ScanFindsFirst(QuadValue(start[..]), QuadValue(end[..]), used);
      ghost var stop := Next(QuadValue(end[..]));
      var ip := CloneIP(start);
      while true
        invariant ip.Length == 4
        invariant FirstFree(QuadValue(start[..]), RangeSize(QuadValue(start[..]), QuadValue(end[..])), used)
               == FirstFree(QuadValue(ip[..]), Distance(QuadValue(ip[..]), stop), used)
        decreases Distance(QuadValue(ip[..]), stop)
      {
        var past := NextIP(end);
        NextOfQuad(end[..]);
        if ip[..] == past[..] {
          return None;
        }
        ValueInjective(ip[..], past[..]);
        var a := QuadValue(ip[..]);
        ScanStep(ip[..], stop, used);
        if a !in used {
          return Some(a);
        }
        ip := NextIP(ip);
      }
    }

    method FindInRange(start: Quad, end: Quad, used: set<Address>) returns (found: Option<Address>)
      ensures found == FirstFree(QuadValue(start), RangeSize(QuadValue(start), QuadValue(end)), used)
    {
      var first := new byte[4](i requires 0 <= i < 4 => start[i]);
      var last := new byte[4](i requires 0 <= i < 4 => end[i]);
      assert first[..] == start && last[..] == end;
      found := ScanRange(first, last, used);
    }

    method AllocateIP(mac: Mac, now: int, io: Io) returns (r: Result<Address, Error>)
      requires repository.Valid()
      modifies repository`active
      ensures repository.Valid()
      ensures (repository.Contents(), r) == Allocate(config, old(repository.Contents()), mac, now, io)
    {
      var statics := repository.ListStaticLeases(io.staticRead);
      var row := FindStatic(statics, mac);
      if row.Some? {
        return Success(row.value.ip.addr);
      }
      var rows := repository.ListActiveLeases(io.activeRead);
      ghost var active := if io.activeRead then repository.active else map[];
      assert forall m :: m in active ==> active[m] in rows;
      for i := 0 to |rows|
        invariant forall j :: 0 <= j < i ==> rows[j].mac != mac
      {
        if rows[i].mac == mac {
          assert rows[i] in rows;
          var _ := repository.CreateOrUpdateActiveLease(rows[i].(expiresAt := now + config.duration), io.write);
          return Success(rows[i].ip);
        }
      }
      assert mac !in active;
      r := AllocateNewIP(mac, statics, rows, now, io);
    }

    /** The range scan and the row for what it finds. */
    method AllocateNewIP(mac: Mac, statics: seq<StaticLease>, rows: seq<ActiveLease>, now: int, io: Io)
      returns (r: Result<Address, Error>)
      requires repository.Valid()
      requires forall row :: row in rows <==>
                 io.activeRead && row.mac in repository.active && repository.active[row.mac] == row
      modifies repository`active
      ensures repository.Valid()
      ensures var active := if io.activeRead then old(repository.active) else map[];
              (repository.Contents(), r) ==
              AllocateNew(config, old(repository.Contents()), statics, active, mac, now, io.write)
    {
      if config.start.None? || config.end.None? {
        return Failure(InvalidRange);
      }
      var used := UsedIPs(statics, rows, now);
      UsedFromRows(if io.activeRead then repository.active else map[], rows, now);
      var ip := FindInRange(config.start.value, config.end.value, used);
      if ip.None? {
        return Failure(NoAddress);
      }
      var done := repository.CreateOrUpdateActiveLease(ActiveLease(mac, ip.value, now + config.duration), io.write);
      r := if done then Success(ip.value) else Failure(UpsertFailed);
    }

    method ConfirmLease(mac: Mac, requested: Address, now: int, io: Io) returns (r: Result<Address, Error>)
      requires repository.Valid()
      modifies repository`active
      ensures repository.Valid()
      ensures (repository.Contents(), r) == Confirm(config, old(repository.Contents()), mac, requested, now, io)
    {
      var statics := repository.ListStaticLeases(io.staticRead);
      var row := FindStatic(statics, mac);
      if row.Some? {
        r := if row.value.ip == Dotted(requested) then Success(requested) else Failure(StaticMismatch);
        return;
      }
      var rows := repository.ListActiveLeases(io.activeRead);
      ghost var active := if io.activeRead then repository.active else map[];
      assert forall m :: m in active ==> active[m] in rows;
      for i := 0 to |rows|
        invariant forall j :: 0 <= j < i ==> !(rows[j].mac == mac && rows[j].ip == requested)
        invariant repository.active == old(repository.active)
      {
        if rows[i].mac == mac {
          if rows[i].ip == requested {
            assert rows[i] in rows;
            var _ := repository.CreateOrUpdateActiveLease(rows[i].(expiresAt := now + config.duration), io.write);
            return Success(requested);
          }
        }
      }
      r := Failure(LeaseNotFound);
    }

    method HandleRequest(mac: Mac, option: Option<Address>, clientAddr: Address, now: int, io: Io)
      returns (r: Result<Address, Error>)
      requires repository.Valid()
      modifies repository`active
      ensures repository.Valid()
      ensures (repository.Contents(), r) ==
              Request(config, old(repository.Contents()), mac, option, clientAddr, now, io)
    {
      var requested := if option.Some? then option.value else clientAddr;
      if requested == 0 {
        return Failure(NoRequestedAddress);
      }
      r := ConfirmLease(mac, requested, now, io);
    }
  }

  lemma {:induction false} DistanceShrinks(a: Address, stop: Address)
    requires a != stop
    ensures Distance(Next(a), stop) == Distance(a, stop) - 1
  {
  }

  /** One step of the scan, on bytes. */
  lemma {:induction false} ScanStep(q: Quad, stop: Address, used: set<Address>)
    requires QuadValue(q) != stop
    ensures var a, b := QuadValue(q), QuadValue(Increment(q));
            && Distance(b, stop) == Distance(a, stop) - 1
            && FirstFree(a, Distance(a, stop), used) ==
               if a in used then FirstFree(b, Distance(b, stop), used) else Some(a)
  {
    NextOfQuad(q);
    DistanceShrinks(QuadValue(q), stop);
  }

  lemma {:induction false} UsedFromRows(active: map<Mac, ActiveLease>, rows: seq<ActiveLease>, now: int)
    requires forall m :: m in active ==> active[m].mac == m
    requires forall r :: r in rows <==> r.mac in active && active[r.mac] == r
    ensures LiveAddresses(active, now) == set l | l in rows && l.expiresAt > now :: l.ip
  {
    forall m | m in active ensures active[m] in rows {}
  }
}
