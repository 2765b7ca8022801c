/** Whole runs of the DHCPv4 server: which addresses are served to whom, and for how long. */
module DhcpRuns {
  import opened Wrappers
  import opened Ipv4
  import opened Dhcp

  datatype Event =
    | Discover(mac: Mac, now: int, io: Io)
    | Ask(mac: Mac, option: Option<Address>, clientAddr: Address, now: int, io: Io)
    | DeleteExpired(now: int)

  /** An address served to a MAC, from a moment until the end of the lease time sent with it. */
  datatype Grant = Grant(mac: Mac, ip: Address, at: int, until: int)

  datatype World = World(store: Store, grants: seq<Grant>)

  function Outcome(cfg: Config, mac: Mac, now: int, r: (Store, Result<Address, Error>)): (Store, Option<Grant>) {
    (r.0, if r.1.Success? then Some(Grant(mac, r.1.value, now, now + cfg.duration)) else None)
  }

  function Step(cfg: Config, s: Store, e: Event): (Store, Option<Grant>) {
    match e
    case Discover(mac, now, io) => Outcome(cfg, mac, now, Allocate(cfg, s, mac, now, io))
    case Ask(mac, option, clientAddr, now, io) =>
      Outcome(cfg, mac, now, Request(cfg, s, mac, option, clientAddr, now, io))
    case DeleteExpired(now) => (Sweep(s, now), None)
  }

  function RunStep(cfg: Config, w: World, e: Event): World {
    var (store, grant) := Step(cfg, w.store, e);
    World(store, if grant.Some? then w.grants + [grant.value] else w.grants)
  }

  function Run(cfg: Config, s: Store, events: seq<Event>): World {
    if events == [] then World(s, [])
    else RunStep(cfg, Run(cfg, s, events[..|events| - 1]), events[|events| - 1])
  }

  /** What the two unique indexes on rows keep, whatever static leases there are. */
  ghost predicate RowsApart(s: Store) {
    && (forall m :: m in s.active ==> s.active[m].mac == m)
    && (forall m, n :: m in s.active && n in s.active && m != n ==> s.active[m].ip != s.active[n].ip)
  }

  /**
   Rows are filed under their MACs; no two have one address, which the unique index keeps
   because all their texts are dotted; and none is on a static address, in any spelling. The
   index on static leases is on their texts, so it does not keep two of them apart.
   */
  ghost predicate Consistent(s: Store) {
    && RowsApart(s)
    && (forall m, i :: m in s.active && 0 <= i < |s.statics| ==> s.active[m].ip != s.statics[i].ip.addr)
  }

  /** No two MACs have enabled static leases of one address. */
  ghost predicate StaticsApart(statics: seq<StaticLease>) {
    forall m, n :: m != n && StaticFor(statics, m).Some? && StaticFor(statics, n).Some? ==>
      StaticFor(statics, m).value.ip.addr != StaticFor(statics, n).value.ip.addr
  }

  /** The tables give this MAC this address, by its enabled static lease or by its row. */
  ghost predicate Holds(s: Store, mac: Mac, ip: Address) {
    || (StaticFor(s.statics, mac).Some? && StaticFor(s.statics, mac).value.ip.addr == ip)
    || (mac in s.active && s.active[mac].ip == ip)
  }

  lemma {:induction false} StaticForFinds(statics: seq<StaticLease>, mac: Mac)
    ensures match StaticFor(statics, mac)
            case Some(row) => row in statics && row.mac == mac && row.enabled
            case None => forall i :: 0 <= i < |statics| && statics[i].mac == mac ==> !statics[i].enabled
  {
    if statics != [] && !(statics[0].mac == mac && statics[0].enabled) {
      StaticForFinds(statics[1..], mac);
    }
  }

  /** It is the first one. */
  lemma {:induction false} StaticForIsFirst(statics: seq<StaticLease>, mac: Mac, i: nat)
    requires i < |statics| && statics[i].mac == mac && statics[i].enabled
    requires forall j :: 0 <= j < i ==> !(statics[j].mac == mac && statics[j].enabled)
    ensures StaticFor(statics, mac) == Some(statics[i])
  {
    if i > 0 {
      StaticForIsFirst(statics[1..], mac, i - 1);
    }
  }

  /** An address has at most one holder, unless static leases share it. */
  lemma {:induction false} OneHolder(s: Store, m: Mac, n: Mac, ip: Address)
    requires Consistent(s) && StaticsApart(s.statics) && Holds(s, m, ip) && Holds(s, n, ip)
    ensures m == n
  {
    StaticForFinds(s.statics, m);
    StaticForFinds(s.statics, n);
  }

  // ---------- one step ----------

  /** Renewing a MAC's row writes the new expiry, or nothing. */
  lemma {:induction false} RenewalShape(cfg: Config, s: Store, mac: Mac, now: int, write: bool)
    requires RowsApart(s) && mac in s.active
    ensures Renewed(cfg, s, s.active[mac], now, write) ==
            if write then s.(active := s.active[mac := s.active[mac].(expiresAt := now + cfg.duration)]) else s
  {
  }

  /** A new row is the only change, on an address that no other row and no static lease read has. */
  lemma {:induction false} NewRowShape(cfg: Config, s: Store, statics: seq<StaticLease>, active: map<Mac, ActiveLease>,
                                       mac: Mac, now: int, write: bool)
    ensures var (t, r) := AllocateNew(cfg, s, statics, active, mac, now, write);
            match r
            case Failure(_) => t == s
            case Success(ip) =>
              && write && HasRange(cfg)
              && t == s.(active := s.active[mac := ActiveLease(mac, ip, now + cfg.duration)])
              && !Conflicts(s.active, mac, ip)
              && (forall i :: 0 <= i < |statics| ==> statics[i].ip.addr != ip)
  {
    if cfg.start.Some? && cfg.end.Some? {
      var start, end := QuadValue(cfg.start.value), QuadValue(cfg.end.value);
      ScanIsExact(start, RangeSize(start, end), Used(statics, active, now));
    }
  }

  /** The range parses and is not empty. */
  predicate HasRange(cfg: Config) {
    cfg.start.Some? && cfg.end.Some? && RangeSize(QuadValue(cfg.start.value), QuadValue(cfg.end.value)) > 0
  }

  /** A Discover with these accesses cannot put a row on a static address. */
  predicate KeepsOffStatics(cfg: Config, io: Io) {
    io.staticRead || !io.write || !HasRange(cfg)
  }

  lemma {:induction false} NewRowSafe(cfg: Config, s: Store, mac: Mac, now: int, io: Io)
    requires Consistent(s) && KeepsOffStatics(cfg, io)
    ensures var statics, active := if io.staticRead then s.statics else [], if io.activeRead then s.active else map[];
            var (t, r) := AllocateNew(cfg, s, statics, active, mac, now, io.write);
            && Consistent(t) && t.statics == s.statics && KeepsOthers(s, t, mac)
            && (r.Success? ==> Holds(t, mac, r.value))
  {
    var statics, active := if io.staticRead then s.statics else [], if io.activeRead then s.active else map[];
    NewRowShape(cfg, s, statics, active, mac, now, io.write);
  }

  /** The rows of all other MACs are untouched. */
  ghost predicate KeepsOthers(s: Store, t: Store, mac: Mac) {
    forall m :: m != mac ==> (m in t.active <==> m in s.active) && (m in t.active ==> t.active[m] == s.active[m])
  }

  /**
   A Discover that renews a row, or cannot put one on a static address, keeps the tables
   consistent; what it serves is held.
   */
  lemma {:induction false} AllocateSafe(cfg: Config, s: Store, mac: Mac, now: int, io: Io)
    requires Consistent(s) && (KeepsOffStatics(cfg, io) || (io.activeRead && mac in s.active))
    ensures var (t, r) := Allocate(cfg, s, mac, now, io);
            && Consistent(t) && t.statics == s.statics && KeepsOthers(s, t, mac)
            && (r.Success? ==> Holds(t, mac, r.value))
  {
    StaticForFinds(s.statics, mac);
    if io.activeRead && mac in s.active {
      RenewalShape(cfg, s, mac, now, io.write);
    } else {
      NewRowSafe(cfg, s, mac, now, io);
    }
  }

  /**
   Discovers keep the tables consistent, whatever the tables are, exactly when they read the
   static leases, or cannot write, or have no range to take an address from: a failed read
   looks like an empty table, and a static address is given away.
   */
  lemma {:induction false} KeepsOffStaticsExactly(cfg: Config, mac: Mac, now: int, io: Io)
    ensures (forall s :: Consistent(s) ==> Consistent(Allocate(cfg, s, mac, now, io).0)) <==> KeepsOffStatics(cfg, io)
  {
    if KeepsOffStatics(cfg, io) {
      forall s | Consistent(s) ensures Consistent(Allocate(cfg, s, mac, now, io).0) {
        AllocateSafe(cfg, s, mac, now, io);
      }
    } else {
      var first := QuadValue(cfg.start.value);
      var s := Store([StaticLease("a", Dotted(first), true)], map[]);
      assert first !in Used([], map[], now);
      var t := Allocate(cfg, s, mac, now, io).0;
      assert mac in t.active && t.active[mac].ip == t.statics[0].ip.addr;
      assert Consistent(s) && !Consistent(t);
    }
  }

  /** A Discover by a MAC with a row keeps the row's address, and may change its expiry. */
  ghost predicate RowStays(cfg: Config, s: Store, mac: Mac, now: int, io: Io) {
    Consistent(s) && mac in s.active ==>
      var t := Allocate(cfg, s, mac, now, io).0;
      mac in t.active && t.active[mac].ip == s.active[mac].ip
  }

  /**
   Discovers by a MAC with a row keep its address, whatever the tables are, exactly when they
   read the active leases, or cannot write, or have no range to take an address from: a failed
   read looks like an empty table, and the row is moved.
   */
  lemma {:induction false} KeepsOwnRowExactly(cfg: Config, mac: Mac, now: int, io: Io)
    ensures (forall s :: RowStays(cfg, s, mac, now, io)) <==> io.activeRead || !io.write || !HasRange(cfg)
  {
    if io.activeRead || !io.write || !HasRange(cfg) {
      forall s ensures RowStays(cfg, s, mac, now, io) {
      }
    } else {
      var first := QuadValue(cfg.start.value);
      var s := Store([], map[mac := ActiveLease(mac, Next(first), now)]);
      assert first !in Used([], map[], now);
      assert s.active[mac].ip != first && Consistent(s);
      assert Allocate(cfg, s, mac, now, io).0.active[mac].ip == first;
      assert !RowStays(cfg, s, mac, now, io);
    }
  }

  /** A Request changes no address, whatever reads fail; what it confirms is held. */
  lemma {:induction false} ConfirmSafe(cfg: Config, s: Store, mac: Mac, requested: Address, now: int, io: Io)
    requires Consistent(s)
    ensures var (t, r) := Confirm(cfg, s, mac, requested, now, io);
            && Consistent(t) && t.statics == s.statics && t.active.Keys == s.active.Keys
            && (r.Success? ==> Holds(t, mac, r.value))
            && (forall m :: m in t.active ==>
                  t.active[m].ip == s.active[m].ip && (m != mac ==> t.active[m] == s.active[m]))
  {
    StaticForFinds(s.statics, mac);
    if mac in s.active {
      RenewalShape(cfg, s, mac, now, io.write);
    }
  }

  /** The tables as a call sees them: a failed read looks like an empty table. */
  function Seen(s: Store, io: Io): Store {
    Store(if io.staticRead then s.statics else [], if io.activeRead then s.active else map[])
  }

  /** The tables a call sees let this MAC have this address on request. */
  ghost predicate MayConfirm(s: Store, mac: Mac, ip: Address) {
    Bound(s, mac, ip) && (StaticFor(s.statics, mac).Some? ==> StaticFor(s.statics, mac).value.ip.Dotted?)
  }

  /** The tables after one row is made to last until then. */
  function RowUntil(s: Store, mac: Mac, until: int): Store
    requires mac in s.active
  {
    s.(active := s.active[mac := s.active[mac].(expiresAt := until)])
  }

  /**
   What a Request for an address is answered, whichever accesses fail: that address, exactly
   when the tables as seen bind the MAC to it, any static lease being in dotted form; its row
   then lasts for a lease time if it is written. Everything else is refused and changes nothing.
   */
  lemma {:induction false} ConfirmExactly(cfg: Config, s: Store, mac: Mac, requested: Address, now: int, io: Io)
    requires RowsApart(s)
    ensures var (t, r) := Confirm(cfg, s, mac, requested, now, io);
            var seen := Seen(s, io);
            && (r.Success? ==> r.value == requested)
            && (r.Success? <==> MayConfirm(seen, mac, requested))
            && (r.Failure? ==> t == s && r.error == if StaticFor(seen.statics, mac).Some? then StaticMismatch
                                                    else LeaseNotFound)
            && (r.Success? ==> t == if StaticFor(seen.statics, mac).None? && io.write && mac in s.active
                                    then RowUntil(s, mac, now + cfg.duration) else s)
  {
    if mac in s.active {
      RenewalShape(cfg, s, mac, now, io.write);
    }
  }

  /** And so by option 50, or by the client address without it; 0.0.0.0 is never confirmed. */
  lemma {:induction false} RequestExactly(cfg: Config, s: Store, mac: Mac, option: Option<Address>, clientAddr: Address,
                                          now: int, io: Io, ip: Address)
    requires RowsApart(s) && AsksFor(option, clientAddr, ip)
    ensures var (t, r) := Request(cfg, s, mac, option, clientAddr, now, io);
            && (r.Success? ==> r.value == ip)
            && (r.Success? <==> ip != 0 && MayConfirm(Seen(s, io), mac, ip))
            && (r.Failure? ==> t == s)
            && (r == Failure(NoRequestedAddress) <==> ip == 0)
            && (ip != 0 ==> (t, r) == Confirm(cfg, s, mac, ip, now, io))
  {
    ConfirmExactly(cfg, s, mac, ip, now, io);
  }

  lemma {:induction false} StepSafe(cfg: Config, s: Store, e: Event)
    requires Consistent(s)
    requires e.Discover? ==> KeepsOffStatics(cfg, e.io) || (e.io.activeRead && e.mac in s.active)
    ensures var (t, g) := Step(cfg, s, e);
            && Consistent(t) && t.statics == s.statics
            && (g.Some? ==> Holds(t, g.value.mac, g.value.ip))
  {
    match e
    case Discover(mac, now, io) => AllocateSafe(cfg, s, mac, now, io);
    case Ask(mac, option, clientAddr, now, io) =>
      if Requested(option, clientAddr).Success? {
        ConfirmSafe(cfg, s, mac, Requested(option, clientAddr).value, now, io);
      }
    case DeleteExpired(now) =>
  }

  // ---------- runs with any accesses failing but the Discovers' static reads ----------

  /** A grant, if there is one, is held by its MAC. */
  ghost predicate ServedToHolder(s: Store, grant: Option<Grant>) {
    grant.Some? ==> Holds(s, grant.value.mac, grant.value.ip)
  }

  /** And by no other. */
  ghost predicate ServedToOne(s: Store, grant: Option<Grant>) {
    grant.Some? ==> forall m :: Holds(s, m, grant.value.ip) ==> m == grant.value.mac
  }

  /**
   Safety over whole runs, sweeps included: as long as Discovers cannot put rows on static
   addresses (other reads and all writes may fail), active addresses stay pairwise distinct
   and apart from every static one; the next step serves only what its MAC then holds, and
   nothing that another MAC holds unless static leases share it.
   */
  lemma {:induction false} TablesStayConsistent(cfg: Config, s: Store, events: seq<Event>, next: Event)
    requires Consistent(s)
    requires forall e :: e in events + [next] && e.Discover? ==> KeepsOffStatics(cfg, e.io)
    ensures var t := Run(cfg, s, events).store;
            var (u, grant) := Step(cfg, t, next);
            && Consistent(t) && t.statics == s.statics && Consistent(u)
            && ServedToHolder(u, grant) && (StaticsApart(s.statics) ==> ServedToOne(u, grant))
  {
    var n := |events| - 1;
    assert next in events + [next];
    if events != [] {
      assert forall e :: e in events[..n] + [events[n]] ==> e in events + [next];
      TablesStayConsistent(cfg, s, events[..n], events[n]);
      StepSafe(cfg, Run(cfg, s, events[..n]).store, events[n]);
    }
    var t := Run(cfg, s, events).store;
    StepSafe(cfg, t, next);
    var (u, grant) := Step(cfg, t, next);
    if grant.Some? && StaticsApart(s.statics) {
      forall m | Holds(u, m, grant.value.ip) ensures m == grant.value.mac {
        OneHolder(u, m, grant.value.mac, grant.value.ip);
      }
    }
  }

  /** A failed read of the static table looks like an empty one, and a static address is given away. */
  lemma {:induction false} FailedStaticReadServesStaticAddress()
    ensures exists cfg: Config, s: Store ::
              && Consistent(s)
              && var (t, r) := Allocate(cfg, s, "b", 0, Io(false, true, true));
                 r.Success? && Holds(t, "a", r.value) && Holds(t, "b", r.value)
  {
    var q: Quad := [0, 0, 0, 5];
    var cfg := Config(Some(q), Some(q), 60);
    var row := StaticLease("a", Dotted(QuadValue(q)), true);
    var s := Store([row], map[]);
    var a := QuadValue(q);
    assert Value([0, 0, 0, 5]) == 5 by {
      assert [0, 0, 0, 5][..3] == [0, 0, 0] && [0, 0, 0][..2] == [0, 0] && [0, 0][..1] == [0];
      assert Value([0]) == 0 && Value([0, 0]) == 0 && Value([0, 0, 0]) == 0;
    }
    assert RangeSize(a, a) == 1;
    assert FirstFree(a, 1, Used([], map[], 0)) == Some(a);
    var (t, r) := Allocate(cfg, s, "b", 0, Io(false, true, true));
    assert t.statics[0].mac == "a";
    assert Holds(t, "a", a) && Holds(t, "b", a);
  }

  // ---------- runs without deletions ----------

  /** The tables bind this MAC to this address: by its enabled static lease, else by its row. */
  ghost predicate Bound(s: Store, mac: Mac, ip: Address) {
    match StaticFor(s.statics, mac)
    case Some(row) => row.ip.addr == ip
    case None => mac in s.active && s.active[mac].ip == ip
  }

  /** Discovers read both tables, Requests the static one; any write may fail. */
  predicate Undisturbed(e: Event) {
    match e
    case Discover(_, _, io) => io.staticRead && io.activeRead
    case Ask(_, _, _, _, io) => io.staticRead
    case DeleteExpired(_) => false
  }

  /** A Request asks for this address: by its option 50, or by its client address without one. */
  predicate AsksFor(option: Option<Address>, clientAddr: Address, ip: Address) {
    option == Some(ip) || (option == None && clientAddr == ip)
  }

  /** What Discover and Request answer to a MAC about an address, at a moment when no access fails. */
  ghost predicate OffersAndConfirms(cfg: Config, s: Store, mac: Mac, ip: Address, now: int) {
    && Allocate(cfg, s, mac, now, ALL_OK).1 == Success(ip)
    && (forall option, clientAddr :: AsksFor(option, clientAddr, ip) ==>
          (Request(cfg, s, mac, option, clientAddr, now, ALL_OK).1 == Success(ip) <==>
           ip != 0 && (StaticFor(s.statics, mac).Some? ==> StaticFor(s.statics, mac).value.ip.Dotted?)))
  }

  /** A static lease in another spelling, or of 0.0.0.0, is offered, and every Request for it refused. */
  lemma {:induction false} OfferedThenRefused(cfg: Config, mac: Mac, text: IpText, now: int, option: Option<Address>,
                                              clientAddr: Address)
    requires (text.Mapped? || text.addr == 0) && AsksFor(option, clientAddr, text.addr)
    ensures var s := Store([StaticLease(mac, text, true)], map[]);
            && Allocate(cfg, s, mac, now, ALL_OK).1 == Success(text.addr)
            && Request(cfg, s, mac, option, clientAddr, now, ALL_OK).1.Failure?
  {
    var s := Store([StaticLease(mac, text, true)], map[]);
    assert StaticFor(s.statics, mac) == Some(s.statics[0]);
  }

  lemma {:induction false} DiscoverBinds(cfg: Config, s: Store, mac: Mac, now: int, io: Io)
    requires Consistent(s) && io.staticRead && io.activeRead
    ensures var (t, r) := Allocate(cfg, s, mac, now, io);
            && t.statics == s.statics && KeepsOthers(s, t, mac)
            && (r.Success? ==> Bound(t, mac, r.value))
            && (forall ip :: Bound(s, mac, ip) ==> Bound(t, mac, ip))
  {
    AllocateSafe(cfg, s, mac, now, io);
    if mac in s.active {
      RenewalShape(cfg, s, mac, now, io.write);
    } else {
      NewRowShape(cfg, s, s.statics, s.active, mac, now, io.write);
    }
  }

  /** A step keeps every binding, and binds what it serves. */
  lemma {:induction false} StepBinds(cfg: Config, s: Store, e: Event)
    requires Consistent(s) && Undisturbed(e)
    ensures var (t, g) := Step(cfg, s, e);
            && (g.Some? ==> Bound(t, g.value.mac, g.value.ip))
            && (forall mac, ip :: Bound(s, mac, ip) ==> Bound(t, mac, ip))
  {
    match e
    case Discover(mac, now, io) => DiscoverBinds(cfg, s, mac, now, io);
    case Ask(mac, option, clientAddr, now, io) =>
      if Requested(option, clientAddr).Success? {
        ConfirmSafe(cfg, s, mac, Requested(option, clientAddr).value, now, io);
      }
  }

  ghost predicate UndisturbedRun(events: seq<Event>) {
    forall e :: e in events ==> Undisturbed(e)
  }

  lemma {:induction false} GrantsStayBound(cfg: Config, s: Store, events: seq<Event>)
    requires Consistent(s) && UndisturbedRun(events)
    ensures var w := Run(cfg, s, events);
            && Consistent(w.store) && w.store.statics == s.statics
            && (forall i :: 0 <= i < |w.grants| ==> Bound(w.store, w.grants[i].mac, w.grants[i].ip))
  {
    if events != [] {
      var n := |events| - 1;
      assert events[n] in events && forall e :: e in events[..n] ==> e in events;
      GrantsStayBound(cfg, s, events[..n]);
      StepSafe(cfg, Run(cfg, s, events[..n]).store, events[n]);
      StepBinds(cfg, Run(cfg, s, events[..n]).store, events[n]);
    }
  }

  /** Without deletions no MAC is ever served two addresses, and no two MACs one if static leases are apart. */
  lemma {:induction false} NoSharedAddress(cfg: Config, s: Store, events: seq<Event>, i: nat, j: nat)
    requires Consistent(s) && UndisturbedRun(events)
    requires i < |Run(cfg, s, events).grants| && j < |Run(cfg, s, events).grants|
    ensures var grants := Run(cfg, s, events).grants;
            && (grants[i].mac == grants[j].mac ==> grants[i].ip == grants[j].ip)
            && (StaticsApart(s.statics) && grants[i].ip == grants[j].ip ==> grants[i].mac == grants[j].mac)
  {
    GrantsStayBound(cfg, s, events);
    var w := Run(cfg, s, events);
    if StaticsApart(s.statics) && w.grants[i].ip == w.grants[j].ip {
      OneHolder(w.store, w.grants[i].mac, w.grants[j].mac, w.grants[i].ip);
    }
  }

  /** Any two grants have equal MACs exactly when they have equal addresses. */
  ghost predicate GrantsApart(grants: seq<Grant>) {
    forall i, j :: 0 <= i < |grants| && 0 <= j < |grants| ==>
      (grants[i].mac == grants[j].mac <==> grants[i].ip == grants[j].ip)
  }

  lemma {:induction false} RunOneMore(cfg: Config, s: Store, events: seq<Event>, e: Event)
    ensures Run(cfg, s, events + [e]) == RunStep(cfg, Run(cfg, s, events), e)
  {
    assert (events + [e])[..|events|] == events;
  }

  /** Both MACs discover at the same moment. */
  function BothDiscover(m: Mac, n: Mac): seq<Event> {
    [Discover(m, 0, ALL_OK)] + [Discover(n, 0, ALL_OK)]
  }

  /** Static leases of one address are both served. */
  lemma {:induction false} SharedStaticIsServed(cfg: Config, s: Store, m: Mac, n: Mac)
    requires StaticFor(s.statics, m).Some? && StaticFor(s.statics, n).Some?
    ensures var a, b := StaticFor(s.statics, m).value.ip.addr, StaticFor(s.statics, n).value.ip.addr;
            Run(cfg, s, BothDiscover(m, n)) ==
            World(s, [] + [Grant(m, a, 0, cfg.duration)] + [Grant(n, b, 0, cfg.duration)])
  {
    RunOneMore(cfg, s, [Discover(m, 0, ALL_OK)], Discover(n, 0, ALL_OK));
  }

  /**
   Exactly when, over every run without deletions, no two MACs are ever served one address
   (and no MAC two): when no two MACs have enabled static leases of one address.
   */
  lemma {:induction false} NoSharedAddressExactly(cfg: Config, s: Store)
    requires Consistent(s)
    ensures (forall events :: UndisturbedRun(events) ==> GrantsApart(Run(cfg, s, events).grants)) <==>
            StaticsApart(s.statics)
  {
    if StaticsApart(s.statics) {
      forall events | UndisturbedRun(events) ensures GrantsApart(Run(cfg, s, events).grants) {
        var grants := Run(cfg, s, events).grants;
        forall i, j | 0 <= i < |grants| && 0 <= j < |grants|
          ensures grants[i].mac == grants[j].mac <==> grants[i].ip == grants[j].ip
        {
          NoSharedAddress(cfg, s, events, i, j);
        }
      }
    } else {
      var m, n :| m != n && StaticFor(s.statics, m).Some? && StaticFor(s.statics, n).Some?
                  && StaticFor(s.statics, m).value.ip.addr == StaticFor(s.statics, n).value.ip.addr;
      SharedStaticIsServed(cfg, s, m, n);
      var grants := Run(cfg, s, BothDiscover(m, n)).grants;
      assert UndisturbedRun(BothDiscover(m, n));
      assert grants[0].mac != grants[1].mac && grants[0].ip == grants[1].ip;
      assert !GrantsApart(grants);
    }
  }

  /** The unique index accepts two spellings of one address, which is then served to both MACs. */
  lemma {:induction false} TwoSpellingsShareAddress(cfg: Config, x: Address, spelling: string)
    ensures var s := Store([StaticLease("a", Dotted(x), true), StaticLease("b", Mapped(x, spelling), true)], map[]);
            && Consistent(s) && s.statics[0].ip != s.statics[1].ip && !StaticsApart(s.statics)
            && Allocate(cfg, s, "a", 0, ALL_OK).1 == Success(x)
            && Allocate(cfg, s, "b", 0, ALL_OK).1 == Success(x)
  {
    var s := Store([StaticLease("a", Dotted(x), true), StaticLease("b", Mapped(x, spelling), true)], map[]);
    assert StaticFor(s.statics, "a") == Some(s.statics[0]);
    assert s.statics[1..] == [StaticLease("b", Mapped(x, spelling), true)];
    assert StaticFor(s.statics[1..], "b") == Some(s.statics[1]);
    assert "a" != "b" && StaticFor(s.statics, "b") == Some(s.statics[1]);
  }

  /**
   And whatever was ever served is what every later Discover by that MAC is answered, at any
   time; a Request for it is confirmed, unless it is 0.0.0.0 or comes from a static lease
   whose text is not the dotted form.
   */
  lemma {:induction false} OfferIsPermanent(cfg: Config, s: Store, events: seq<Event>, i: nat, now: int)
    requires Consistent(s) && UndisturbedRun(events)
    requires i < |Run(cfg, s, events).grants|
    ensures var w := Run(cfg, s, events);
            && w.store.statics == s.statics
            && OffersAndConfirms(cfg, w.store, w.grants[i].mac, w.grants[i].ip, now)
  {
    GrantsStayBound(cfg, s, events);
    var w := Run(cfg, s, events);
  }

  lemma {:induction false} StepKeepsRow(cfg: Config, s: Store, e: Event, mac: Mac)
    requires Consistent(s) && mac in s.active && !e.DeleteExpired?
    requires e.Discover? ==> KeepsOffStatics(cfg, e.io) && (e.mac == mac ==> e.io.activeRead)
    ensures var t := Step(cfg, s, e).0;
            mac in t.active && t.active[mac].ip == s.active[mac].ip
  {
    match e
    case Discover(m, now, io) =>
      AllocateSafe(cfg, s, m, now, io);
      if m == mac { RenewalShape(cfg, s, mac, now, io.write); }
    case Ask(m, option, clientAddr, now, io) =>
      if Requested(option, clientAddr).Success? {
        ConfirmSafe(cfg, s, m, Requested(option, clientAddr).value, now, io);
      }
  }

  lemma {:induction false} RowIsPermanent(cfg: Config, s: Store, events: seq<Event>, mac: Mac)
    requires Consistent(s) && mac in s.active
    requires forall e :: e in events ==> !e.DeleteExpired?
    requires forall e :: e in events && e.Discover? ==> KeepsOffStatics(cfg, e.io) && (e.mac == mac ==> e.io.activeRead)
    ensures var t := Run(cfg, s, events).store;
            && Consistent(t) && t.statics == s.statics
            && mac in t.active && t.active[mac].ip == s.active[mac].ip
  {
    if events != [] {
      var n := |events| - 1;
      assert events[n] in events && forall x :: x in events[..n] ==> x in events;
      RowIsPermanent(cfg, s, events[..n], mac);
      StepSafe(cfg, Run(cfg, s, events[..n]).store, events[n]);
      StepKeepsRow(cfg, Run(cfg, s, events[..n]).store, events[n], mac);
    }
  }

  /**
   Once a MAC has a row, its address never changes while no row is deleted: not by other
   clients, whichever of their reads of the active table fail, not by failing writes, and not
   by its own Discovers that can read the table; and without a static lease it is always
   offered that address and confirmed on it.
   */
  lemma {:induction false} BindingIsPermanent(cfg: Config, s: Store, events: seq<Event>, mac: Mac, now: int)
    requires Consistent(s) && mac in s.active
    requires forall e :: e in events ==> !e.DeleteExpired?
    requires forall e :: e in events && e.Discover? ==> KeepsOffStatics(cfg, e.io) && (e.mac == mac ==> e.io.activeRead)
    ensures var t := Run(cfg, s, events).store;
            var ip := s.active[mac].ip;
            && Consistent(t) && t.statics == s.statics
            && mac in t.active && t.active[mac].ip == ip
            && (StaticFor(s.statics, mac).None? ==> OffersAndConfirms(cfg, t, mac, ip, now))
  {
    RowIsPermanent(cfg, s, events, mac);
  }
}
