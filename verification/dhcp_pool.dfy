/** When the DHCPv4 server has an address to give. */
module DhcpPool {
  import opened Wrappers
  import opened Ipv4
  import opened Dhcp
  import opened DhcpRuns

  /** The scan never chooses an address in use. */
  lemma {:induction false} ChosenIsFree(start: Address, n: nat, statics: seq<StaticLease>,
                                        active: map<Mac, ActiveLease>, now: int)
    ensures match FirstFree(start, n, Used(statics, active, now))
            case Some(ip) => !InUse(statics, active, now, ip)
            case None => true
  {
    ScanIsExact(start, n, Used(statics, active, now));
  }

  /** In consistent tables the address of a row can be given again from the very end of its time on. */
  lemma {:induction false} FreedAtExpiry(s: Store, mac: Mac, now: int)
    requires Consistent(s) && mac in s.active
    ensures s.active[mac].ip in Used(s.statics, s.active, now) <==> now < s.active[mac].expiresAt
  {
  }

  /** The tables have a lease for the MAC. */
  predicate HasLease(s: Store, mac: Mac) {
    StaticFor(s.statics, mac).Some? || mac in s.active
  }

  /** No other MAC's row is on the address. */
  ghost predicate OnNoOtherRow(s: Store, mac: Mac, a: Address) {
    forall m :: m in s.active && m != mac ==> s.active[m].ip != a
  }

  /** Some address of the range is neither static nor live, and the first such one is this. */
  ghost predicate FirstOpen(cfg: Config, s: Store, now: int, a: Address) {
    && cfg.start.Some? && cfg.end.Some?
    && FirstOfRange(QuadValue(cfg.start.value), QuadValue(cfg.end.value), Used(s.statics, s.active, now), a)
  }

  /** Every address of the range is static or live. */
  ghost predicate RangeUsedUp(cfg: Config, s: Store, now: int)
    requires cfg.start.Some? && cfg.end.Some?
  {
    forall a: Address :: Within(QuadValue(cfg.start.value), QuadValue(cfg.end.value), a) ==>
      InUse(s.statics, s.active, now, a)
  }

  /** The row of the MAC, or a new one, is on the address until a lease time from now; other rows are as they were. */
  ghost predicate RowGiven(cfg: Config, s: Store, t: Store, mac: Mac, a: Address, now: int) {
    t.statics == s.statics && t.active == s.active[mac := ActiveLease(mac, a, now + cfg.duration)]
  }

  /** What a Discover without a lease in sight does. */
  lemma {:induction false} AllocateNewExactly(cfg: Config, s: Store, seen: Store, mac: Mac, now: int, write: bool)
    ensures var (t, r) := AllocateNew(cfg, s, seen.statics, seen.active, mac, now, write);
            && (r == Failure(InvalidRange) <==> cfg.start.None? || cfg.end.None?)
            && (r == Failure(NoAddress) <==> cfg.start.Some? && cfg.end.Some? && RangeUsedUp(cfg, seen, now))
            && (forall a: Address :: FirstOpen(cfg, seen, now, a) ==>
                  r == if write && OnNoOtherRow(s, mac, a) then Success(a) else Failure(UpsertFailed))
            && (r == Failure(UpsertFailed) ==> exists a: Address :: FirstOpen(cfg, seen, now, a))
            && (r.Success? ==> FirstOpen(cfg, seen, now, r.value) && RowGiven(cfg, s, t, mac, r.value, now))
            && (r.Failure? ==> t == s)
  {
    if cfg.start.Some? && cfg.end.Some? {
      var start, end := QuadValue(cfg.start.value), QuadValue(cfg.end.value);
      var used := Used(seen.statics, seen.active, now);
      ScanFindsFirst(start, end, used);
      var free := FirstFree(start, RangeSize(start, end), used);
      if free.Some? {
        assert FirstOpen(cfg, seen, now, free.value);
        forall a: Address | FirstOpen(cfg, seen, now, a) ensures a == free.value {
          FirstIsUnique(start, end, used, a, free.value);
        }
      }
    }
  }

  /**
   What a Discover answers, exactly, whichever accesses fail, in terms of the tables as seen:
   the static address, else that of the row, else the first open address of the range, which
   must be on no other row, and a new row is written; or the error, and nothing changes.
   */
  lemma {:induction false} AllocateExactly(cfg: Config, s: Store, mac: Mac, now: int, io: Io)
    requires RowsApart(s)
    ensures var (t, r) := Allocate(cfg, s, mac, now, io);
            var seen := Seen(s, io);
            && (StaticFor(seen.statics, mac).Some? ==>
                  t == s && r == Success(StaticFor(seen.statics, mac).value.ip.addr))
            && (StaticFor(seen.statics, mac).None? && mac in seen.active ==>
                  r == Success(s.active[mac].ip)
                  && t == if io.write then RowUntil(s, mac, now + cfg.duration) else s)
            && (!HasLease(seen, mac) ==> (t, r) == AllocateNew(cfg, s, seen.statics, seen.active, mac, now, io.write))
            && (r == Failure(InvalidRange) <==> !HasLease(seen, mac) && (cfg.start.None? || cfg.end.None?))
            && (r == Failure(NoAddress) <==>
                !HasLease(seen, mac) && cfg.start.Some? && cfg.end.Some? && RangeUsedUp(cfg, seen, now))
            && (r.Failure? ==> t == s)
  {
    AllocateNewExactly(cfg, s, Seen(s, io), mac, now, io.write);
    if mac in s.active {
      RenewalShape(cfg, s, mac, now, io.write);
    }
  }

  /** "No available address" is answered exactly when every address of the range is used, which a count shows too. */
  lemma {:induction false} NoAddressExactly(cfg: Config, s: Store, mac: Mac, now: int)
    requires StaticFor(s.statics, mac).None? && mac !in s.active
    requires cfg.start.Some? && cfg.end.Some?
    ensures var start, end := QuadValue(cfg.start.value), QuadValue(cfg.end.value);
            var n := RangeSize(start, end);
            && (Allocate(cfg, s, mac, now, ALL_OK).1 == Failure(NoAddress) <==> RangeUsedUp(cfg, s, now))
            && (Allocate(cfg, s, mac, now, ALL_OK).1 == Failure(NoAddress) <==>
                |RangeSet(start, n) * Used(s.statics, s.active, now)| == n)
  {
    var start, end := QuadValue(cfg.start.value), QuadValue(cfg.end.value);
    AllocateNewExactly(cfg, s, s, mac, now, true);
    PoolNotExhausted(start, RangeSize(start, end), Used(s.statics, s.active, now));
  }

  /**
   Exactly when a MAC without a lease is given one: the range has an address that is neither
   static nor live, and the first such address is not blocked by an expired row.
   */
  lemma {:induction false} AllocationSucceedsExactly(cfg: Config, s: Store, mac: Mac, now: int)
    requires StaticFor(s.statics, mac).None? && mac !in s.active
    ensures Allocate(cfg, s, mac, now, ALL_OK).1.Success? <==>
            exists a: Address :: FirstOpen(cfg, s, now, a) && OnNoOtherRow(s, mac, a)
  {
    AllocateNewExactly(cfg, s, s, mac, now, true);
  }

  /**
   With no expired rows, a Discover is answered with an address exactly when the MAC has a
   lease or some address of the range is neither static nor live.
   */
  lemma {:induction false} AllocationNeverStarves(cfg: Config, s: Store, mac: Mac, now: int)
    requires cfg.start.Some? && cfg.end.Some?
    requires forall m :: m in s.active ==> s.active[m].expiresAt > now
    ensures Allocate(cfg, s, mac, now, ALL_OK).1.Success? <==> HasLease(s, mac) || !RangeUsedUp(cfg, s, now)
  {
    if !HasLease(s, mac) {
      AllocateNewExactly(cfg, s, s, mac, now, true);
      forall a: Address | FirstOpen(cfg, s, now, a) ensures OnNoOtherRow(s, mac, a) {
        assert !InUse(s.statics, s.active, now, a);
      }
    }
  }

  lemma {:induction false} TwoAddresses(first: Quad)
    requires QuadValue(first) + 1 < SPACE
    ensures RangeSize(QuadValue(first), QuadValue(Increment(first))) == 2
    ensures QuadValue(Increment(first)) == Next(QuadValue(first)) == QuadValue(first) + 1
  {
    NextOfQuad(first);
  }

  /**
   The unique index counts expired rows although the scan skips them: the only lease left on
   the first address is expired, the second address is free, and allocation still fails,
   changing nothing. Deleting the row cures it; so does its renewal, after which the second
   address is given.
   */
  lemma {:induction false} ExpiredRowBlocksPool(first: Quad, now: int)
    requires QuadValue(first) + 1 < SPACE
    ensures var cfg := Config(Some(first), Some(Increment(first)), 60);
            var a := QuadValue(first);
            var s := Store([], map["old" := ActiveLease("old", a, now - 1)]);
            var renewed := Allocate(cfg, s, "old", now, ALL_OK).0;
            && Consistent(s) && !InUse(s.statics, s.active, now, Next(a)) && Blocked(cfg, s, "old", now)
            && Allocate(cfg, s, "new", now, ALL_OK) == (s, Failure(UpsertFailed))
            && Allocate(cfg, Sweep(s, now), "new", now, ALL_OK).1 == Success(a)
            && Allocate(cfg, renewed, "new", now, ALL_OK).1 == Success(Next(a))
  {
    var a := QuadValue(first);
    var active := map["old" := ActiveLease("old", a, now - 1)];
    TwoAddresses(first);
    assert active["old"].ip == a;
    assert Sweep(Store([], active), now) == Store([], map[]);
    SecondOfTwo(first, "old", "new", now);
  }

  /** Once the row on the first of two addresses is renewed, a new MAC gets the second. */
  lemma {:induction false} SecondOfTwo(first: Quad, owner: Mac, mac: Mac, now: int)
    requires QuadValue(first) + 1 < SPACE && mac != owner
    ensures var cfg := Config(Some(first), Some(Increment(first)), 60);
            var a := QuadValue(first);
            var s := Store([], map[owner := ActiveLease(owner, a, now - 1)]);
            Allocate(cfg, Allocate(cfg, s, owner, now, ALL_OK).0, mac, now, ALL_OK).1 == Success(Next(a))
  {
    var cfg := Config(Some(first), Some(Increment(first)), 60);
    var a := QuadValue(first);
    var s := Store([], map[owner := ActiveLease(owner, a, now - 1)]);
    RenewalShape(cfg, s, owner, now, true);
    var active := Allocate(cfg, s, owner, now, ALL_OK).0.active;
    assert active[owner] == ActiveLease(owner, a, now + 60);
    TwoAddresses(first);
    var used := Used([], active, now);
    assert a in used && Next(a) !in used;
    assert FirstFree(Next(a), 1, used) == Some(Next(a));
  }

  // ---------- for how long ----------

  /** The first address of the range not in use is on the row of this MAC, which is thus expired. */
  ghost predicate Blocked(cfg: Config, s: Store, m: Mac, now: int) {
    && cfg.start.Some? && cfg.end.Some? && m in s.active
    && var start, end := QuadValue(cfg.start.value), QuadValue(cfg.end.value);
       FirstFree(start, RangeSize(start, end), Used(s.statics, s.active, now)) == Some(s.active[m].ip)
  }

  predicate OnTable(s: Store, ip: Address) {
    ip in StaticAddresses(s.statics) || exists m | m in s.active :: s.active[m].ip == ip
  }

  /** The expired row is k steps into the range, and no address up to it is on neither table. */
  ghost predicate BlockedAt(cfg: Config, s: Store, m: Mac, now: int, k: nat) {
    && cfg.start.Some? && cfg.end.Some? && m in s.active && s.active[m].expiresAt <= now
    && var start, end := QuadValue(cfg.start.value), QuadValue(cfg.end.value);
       && k < RangeSize(start, end) && s.active[m].ip == Offset(start, k)
       && forall j: nat :: j <= k ==> OnTable(s, Offset(start, j))
  }

  lemma {:induction false} BlockedSomewhere(cfg: Config, s: Store, m: Mac, now: int) returns (k: nat)
    requires Blocked(cfg, s, m, now)
    ensures BlockedAt(cfg, s, m, now, k)
  {
    var start, end := QuadValue(cfg.start.value), QuadValue(cfg.end.value);
    var used, ip := Used(s.statics, s.active, now), s.active[m].ip;
    ScanIsExact(start, RangeSize(start, end), used);
    assert !InUse(s.statics, s.active, now, ip);
    k :| k < RangeSize(start, end) && ip == Offset(start, k) && forall j: nat :: j < k ==> Offset(start, j) in used;
    forall j: nat | j <= k ensures OnTable(s, Offset(start, j)) {
      if j < k {
        assert Offset(start, j) in used;
      }
    }
  }

  /** At no later time does the scan get past that row, and the first address not in use is on that or another. */
  lemma {:induction false} BlockedFails(cfg: Config, s: Store, m: Mac, now: int, k: nat, mac: Mac, at: int, write: bool)
    requires Consistent(s) && BlockedAt(cfg, s, m, now, k) && at >= now
    requires StaticFor(s.statics, mac).None? && mac !in s.active
    ensures Allocate(cfg, s, mac, at, Io(true, true, write)) == (s, Failure(UpsertFailed))
  {
    var start, end := QuadValue(cfg.start.value), QuadValue(cfg.end.value);
    var used := Used(s.statics, s.active, at);
    ScanIsExact(start, RangeSize(start, end), used);
    assert !InUse(s.statics, s.active, at, Offset(start, k));
    var ip := FirstFree(start, RangeSize(start, end), used).value;
    assert !InUse(s.statics, s.active, at, ip);
    assert OnTable(s, ip);
    assert Conflicts(s.active, mac, ip);
  }

  /** Another MAC's Discover that can read the tables, or its Request, none earlier than now. */
  predicate PassesBy(e: Event, m: Mac, now: int) {
    match e
    case Discover(mac, at, io) => mac != m && at >= now && io.staticRead && io.activeRead
    case Ask(mac, _, _, at, _) => mac != m && at >= now
    case DeleteExpired(_) => false
  }

  /** Both tables have the same addresses, for the same MACs. */
  ghost predicate SameAddresses(s: Store, t: Store) {
    && t.statics == s.statics && t.active.Keys == s.active.Keys
    && forall m :: m in s.active ==> t.active[m].ip == s.active[m].ip
  }

  lemma {:induction false} BlockedStep(cfg: Config, s: Store, m: Mac, now: int, k: nat, e: Event)
    requires Consistent(s) && BlockedAt(cfg, s, m, now, k) && PassesBy(e, m, now)
    ensures var t := Step(cfg, s, e).0;
            Consistent(t) && SameAddresses(s, t) && t.active[m] == s.active[m]
  {
    match e
    case Discover(mac, at, io) =>
      AllocateSafe(cfg, s, mac, at, io);
      if StaticFor(s.statics, mac).Some? {
      } else if mac in s.active {
        RenewalShape(cfg, s, mac, at, io.write);
      } else {
        BlockedFails(cfg, s, m, now, k, mac, at, io.write);
      }
    case Ask(mac, option, clientAddr, at, io) =>
      if Requested(option, clientAddr).Success? {
        ConfirmSafe(cfg, s, mac, Requested(option, clientAddr).value, at, io);
      }
  }

  lemma {:induction false} BlockedRun(cfg: Config, s: Store, m: Mac, now: int, k: nat, events: seq<Event>)
    requires Consistent(s) && BlockedAt(cfg, s, m, now, k)
    requires forall e :: e in events ==> PassesBy(e, m, now)
    ensures var t := Run(cfg, s, events).store;
            Consistent(t) && SameAddresses(s, t) && t.active[m] == s.active[m] && BlockedAt(cfg, t, m, now, k)
  {
    if events != [] {
      var n := |events| - 1;
      assert events[n] in events && forall e :: e in events[..n] ==> e in events;
      BlockedRun(cfg, s, m, now, k, events[..n]);
      var t := Run(cfg, s, events[..n]).store;
      BlockedStep(cfg, t, m, now, k, events[n]);
    }
  }

  /**
   For how long an expired row blocks: over every run of events by other MACs, until its own
   MAC renews it or a sweep deletes it, no table gains an address, and every Discover by a MAC
   without a lease is refused and changes nothing.
   */
  lemma {:induction false} BlockedUntilRenewed(cfg: Config, s: Store, m: Mac, now: int, events: seq<Event>, mac: Mac,
                                               at: int, write: bool)
    requires Consistent(s) && Blocked(cfg, s, m, now) && at >= now
    requires forall e :: e in events ==> PassesBy(e, m, now)
    requires StaticFor(s.statics, mac).None? && mac !in s.active
    ensures var t := Run(cfg, s, events).store;
            && SameAddresses(s, t) && t.active[m] == s.active[m]
            && Allocate(cfg, t, mac, at, Io(true, true, write)) == (t, Failure(UpsertFailed))
  {
    var k := BlockedSomewhere(cfg, s, m, now);
    BlockedRun(cfg, s, m, now, k, events);
    BlockedFails(cfg, Run(cfg, s, events).store, m, now, k, mac, at, write);
  }
}
