/** DHCPv4 leases over time: an address is not served to a second client while the first has it. */
module DhcpExclusivity {
  import opened Wrappers
  import opened Ipv4
  import opened Dhcp
  import opened DhcpRuns

  /** The tables still back a grant: its static lease, or its row with at least its expiry. */
  ghost predicate Backed(s: Store, g: Grant) {
    Bound(s, g.mac, g.ip) && (StaticFor(s.statics, g.mac).None? ==> s.active[g.mac].expiresAt >= g.until)
  }

  /** Renewing the row leaves it with the new expiry or a later one, because it is written or need not be. */
  predicate RenewalLasts(cfg: Config, s: Store, mac: Mac, now: int, write: bool) {
    mac in s.active ==> write || s.active[mac].expiresAt >= now + cfg.duration
  }

  /**
   The failing accesses that do no harm to a Discover or Request: nothing is served or
   written because of them, or what is served would be served anyway and its row lasts.
   */
  predicate Harmless(cfg: Config, s: Store, e: Event) {
    match e
    case Discover(mac, now, io) =>
      if StaticFor(s.statics, mac).Some? then
        io.staticRead || (KeepsOffStatics(cfg, io) && !(io.activeRead && mac in s.active))
      else if mac !in s.active then KeepsOffStatics(cfg, io)
      else if io.activeRead then RenewalLasts(cfg, s, mac, now, io.write)
      else !io.write || !HasRange(cfg)
    case Ask(mac, _, _, now, io) =>
      if StaticFor(s.statics, mac).Some? then io.staticRead || !(io.activeRead && mac in s.active)
      else io.activeRead ==> RenewalLasts(cfg, s, mac, now, io.write)
    case DeleteExpired(_) => true
  }

  ghost predicate HarmlessRun(cfg: Config, s: Store, events: seq<Event>) {
    forall k :: 0 <= k < |events| ==> Harmless(cfg, Run(cfg, s, events[..k]).store, events[k])
  }

  ghost predicate Ordered(events: seq<Event>) {
    forall i, j :: 0 <= i < j < |events| ==> events[i].now <= events[j].now
  }

  /** A harmless step is safe. */
  lemma {:induction false} HarmlessIsSafe(cfg: Config, s: Store, e: Event)
    requires Consistent(s) && Harmless(cfg, s, e)
    ensures var (t, g) := Step(cfg, s, e);
            && Consistent(t) && t.statics == s.statics
            && (g.Some? ==> Holds(t, g.value.mac, g.value.ip))
  {
    StepSafe(cfg, s, e);
  }

  /** The MAC's binding is as before, and its row lasts as long as before or for a full lease time from now. */
  ghost predicate KeepsRow(cfg: Config, s: Store, t: Store, mac: Mac, now: int) {
    mac in s.active ==>
      && mac in t.active && t.active[mac].ip == s.active[mac].ip
      && (t.active[mac].expiresAt >= s.active[mac].expiresAt || t.active[mac].expiresAt >= now + cfg.duration)
  }

  lemma {:induction false} HarmlessDiscover(cfg: Config, s: Store, mac: Mac, now: int, io: Io)
    requires Consistent(s) && Harmless(cfg, s, Discover(mac, now, io))
    ensures var (t, r) := Allocate(cfg, s, mac, now, io);
            && t.statics == s.statics && KeepsOthers(s, t, mac)
            && (StaticFor(s.statics, mac).None? ==> KeepsRow(cfg, s, t, mac, now))
            && (r.Success? ==> Backed(t, Grant(mac, r.value, now, now + cfg.duration)))
  {
    AllocateSafe(cfg, s, mac, now, io);
    var statics, active := if io.staticRead then s.statics else [], if io.activeRead then s.active else map[];
    if mac in s.active && io.activeRead {
      RenewalShape(cfg, s, mac, now, io.write);
    } else {
      NewRowShape(cfg, s, statics, active, mac, now, io.write);
    }
  }

  /** A harmless step keeps every running grant backed, sweeps included. */
  lemma {:induction false} StepBacks(cfg: Config, s: Store, e: Event, g: Grant)
    requires Consistent(s) && Harmless(cfg, s, e)
    requires Backed(s, g) && g.until <= e.now + cfg.duration
    ensures var (t, _) := Step(cfg, s, e); g.until < e.now || Backed(t, g)
  {
    match e
    case Discover(mac, now, io) => HarmlessDiscover(cfg, s, mac, now, io);
    case Ask(mac, option, clientAddr, now, io) =>
    case DeleteExpired(now) =>
  }

  /** And backs the one it makes, to its end. */
  lemma {:induction false} StepBacksNew(cfg: Config, s: Store, e: Event)
    requires Consistent(s) && Harmless(cfg, s, e)
    ensures var (t, g) := Step(cfg, s, e);
            g.Some? ==> Backed(t, g.value) && g.value.at == e.now && g.value.until == e.now + cfg.duration
  {
    match e
    case Discover(mac, now, io) => HarmlessDiscover(cfg, s, mac, now, io);
    case Ask(mac, option, clientAddr, now, io) =>
    case DeleteExpired(now) =>
  }

  /**
   Exactly when a grant is backed to its end, both tables having been read: for a MAC with a
   static lease or without a row always; else when its row could be written, or lasts as it is.
   */
  lemma {:induction false} GrantIsBackedExactly(cfg: Config, s: Store, e: Event)
    requires Consistent(s) && !e.DeleteExpired? && e.io.staticRead && e.io.activeRead
    ensures var (t, g) := Step(cfg, s, e);
            g.Some? ==>
              (Backed(t, g.value) <==>
               StaticFor(s.statics, e.mac).Some? || RenewalLasts(cfg, s, e.mac, e.now, e.io.write))
  {
    if e.mac in s.active {
      RenewalShape(cfg, s, e.mac, e.now, e.io.write);
    } else if e.Discover? {
      NewRowShape(cfg, s, s.statics, s.active, e.mac, e.now, e.io.write);
    }
  }

  /** Two grants of one address to different MACs: the earlier had ended before the later began. */
  ghost predicate Exclusive(grants: seq<Grant>) {
    forall i, j :: 0 <= i < j < |grants| && grants[i].ip == grants[j].ip && grants[i].mac != grants[j].mac ==>
      grants[i].until < grants[j].at
  }

  /** What a whole run keeps: a grant not yet past its end is backed. */
  ghost predicate Honoured(cfg: Config, w: World, clock: int) {
    forall i :: 0 <= i < |w.grants| ==>
      && w.grants[i].until <= clock + cfg.duration
      && (w.grants[i].until < clock || Backed(w.store, w.grants[i]))
  }

  /** A grant just made cannot collide with a backed one of another MAC. */
  lemma {:induction false} NewGrantIsExclusive(s: Store, grants: seq<Grant>, grant: Grant)
    requires Consistent(s) && StaticsApart(s.statics) && Exclusive(grants) && Holds(s, grant.mac, grant.ip)
    requires forall i :: 0 <= i < |grants| ==> grants[i].until < grant.at || Backed(s, grants[i])
    ensures Exclusive(grants + [grant])
  {
    forall i | 0 <= i < |grants| && grants[i].ip == grant.ip && grants[i].mac != grant.mac
      ensures grants[i].until < grant.at
    {
      if Backed(s, grants[i]) {
        OneHolder(s, grants[i].mac, grant.mac, grant.ip);
      }
    }
  }

  lemma {:induction false} StepKeepsHonoured(cfg: Config, w: World, e: Event, clock: int)
    requires Consistent(w.store) && Harmless(cfg, w.store, e) && clock <= e.now && Honoured(cfg, w, clock)
    ensures Honoured(cfg, RunStep(cfg, w, e), e.now)
  {
    StepBacksNew(cfg, w.store, e);
    var t := Step(cfg, w.store, e).0;
    forall i | 0 <= i < |w.grants|
      ensures w.grants[i].until <= e.now + cfg.duration && (w.grants[i].until < e.now || Backed(t, w.grants[i]))
    {
      if Backed(w.store, w.grants[i]) {
        StepBacks(cfg, w.store, e, w.grants[i]);
      }
    }
  }

  lemma {:induction false} StepKeepsExclusive(cfg: Config, w: World, e: Event)
    requires Consistent(w.store) && StaticsApart(w.store.statics)
    requires Harmless(cfg, w.store, e) && Exclusive(w.grants)
    requires Honoured(cfg, RunStep(cfg, w, e), e.now)
    ensures Exclusive(RunStep(cfg, w, e).grants)
  {
    HarmlessIsSafe(cfg, w.store, e);
    StepBacksNew(cfg, w.store, e);
    var (t, grant) := Step(cfg, w.store, e);
    if grant.Some? {
      forall i | 0 <= i < |w.grants| ensures w.grants[i].until < e.now || Backed(t, w.grants[i]) {
        assert RunStep(cfg, w, e).grants[i] == w.grants[i];
      }
      NewGrantIsExclusive(t, w.grants, grant.value);
    }
  }

  lemma {:induction false} HarmlessPrefix(cfg: Config, s: Store, events: seq<Event>)
    requires events != [] && HarmlessRun(cfg, s, events)
    ensures HarmlessRun(cfg, s, events[..|events| - 1])
  {
    var n := |events| - 1;
    forall k | 0 <= k < n ensures Harmless(cfg, Run(cfg, s, events[..n][..k]).store, events[..n][k]) {
      assert events[..n][..k] == events[..k];
    }
  }

  /** Over whole runs, sweeps included, with an ordered clock and no harmful failure, running grants stay backed. */
  lemma {:induction false} GrantsAreHonoured(cfg: Config, s: Store, events: seq<Event>)
    requires Consistent(s) && Ordered(events) && HarmlessRun(cfg, s, events)
    ensures var w := Run(cfg, s, events);
            && Consistent(w.store) && w.store.statics == s.statics
            && (events != [] ==> Honoured(cfg, w, events[|events| - 1].now))
            && (events == [] ==> w.grants == [])
  {
    if events != [] {
      var n := |events| - 1;
      var e := events[n];
      HarmlessPrefix(cfg, s, events);
      GrantsAreHonoured(cfg, s, events[..n]);
      var w := Run(cfg, s, events[..n]);
      assert Harmless(cfg, w.store, e);
      assert n > 0 ==> events[..n][n - 1].now <= e.now;
      var clock := if n == 0 then e.now else events[n - 1].now;
      assert Honoured(cfg, w, clock);
      HarmlessIsSafe(cfg, w.store, e);
      StepKeepsHonoured(cfg, w, e, clock);
    }
  }

  /**
   Exclusivity over whole runs, sweeps included: with a clock that does not go back, no
   harmful failure, and static leases apart, an address served to one MAC is not served to
   another before the lease time of the first has passed.
   */
  lemma {:induction false} LeasesAreExclusive(cfg: Config, s: Store, events: seq<Event>)
    requires Consistent(s) && StaticsApart(s.statics) && Ordered(events) && HarmlessRun(cfg, s, events)
    ensures Exclusive(Run(cfg, s, events).grants)
  {
    GrantsAreHonoured(cfg, s, events);
    if events != [] {
      var n := |events| - 1;
      HarmlessPrefix(cfg, s, events);
      GrantsAreHonoured(cfg, s, events[..n]);
      LeasesAreExclusive(cfg, s, events[..n]);
      assert Harmless(cfg, Run(cfg, s, events[..n]).store, events[n]);
      StepKeepsExclusive(cfg, Run(cfg, s, events[..n]), events[n]);
    }
  }

  /** Exactly when that holds over all such runs: when no two MACs have enabled static leases of one address. */
  lemma {:induction false} LeasesAreExclusiveExactly(cfg: Config, s: Store)
    requires Consistent(s)
    ensures (forall events ::
               Ordered(events) && HarmlessRun(cfg, s, events) ==> Exclusive(Run(cfg, s, events).grants)) <==>
            StaticsApart(s.statics)
  {
    if StaticsApart(s.statics) {
      forall events | Ordered(events) && HarmlessRun(cfg, s, events) ensures Exclusive(Run(cfg, s, events).grants) {
        LeasesAreExclusive(cfg, s, events);
      }
    } else {
      var m, n :| m != n && StaticFor(s.statics, m).Some? && StaticFor(s.statics, n).Some?
                  && StaticFor(s.statics, m).value.ip.addr == StaticFor(s.statics, n).value.ip.addr;
      SharedStaticIsServed(cfg, s, m, n);
      var events := BothDiscover(m, n);
      assert Ordered(events) && HarmlessRun(cfg, s, events);
      var grants := Run(cfg, s, events).grants;
      assert grants[0].ip == grants[1].ip && grants[0].mac != grants[1].mac && grants[0].until >= grants[1].at;
      assert !Exclusive(grants);
    }
  }

  /** In particular without failing accesses, but for reads of the active table by Requests, which are refused. */
  predicate Faultless(e: Event) {
    match e
    case Discover(_, _, io) => io == ALL_OK
    case Ask(_, _, _, _, io) => io.staticRead && (io.activeRead ==> io.write)
    case DeleteExpired(_) => true
  }

  lemma {:induction false} FaultlessIsHarmless(cfg: Config, s: Store, e: Event)
    requires Faultless(e)
    ensures Harmless(cfg, s, e)
  {
  }

  /**
   An offer is honoured: after any such run, a MAC whose grant has not ended gets the same
   address from the next Discover, and a Request for it is confirmed, unless it is 0.0.0.0 or
   comes from a static lease whose text is not the dotted form.
   */
  lemma {:induction false} OfferIsHonoured(cfg: Config, s: Store, events: seq<Event>, i: nat, now: int)
    requires Consistent(s) && Ordered(events) && events != [] && HarmlessRun(cfg, s, events)
    requires i < |Run(cfg, s, events).grants|
    requires events[|events| - 1].now <= now <= Run(cfg, s, events).grants[i].until
    ensures var w := Run(cfg, s, events);
            && w.store.statics == s.statics
            && OffersAndConfirms(cfg, w.store, w.grants[i].mac, w.grants[i].ip, now)
  {
    GrantsAreHonoured(cfg, s, events);
    var w := Run(cfg, s, events);
    assert Backed(w.store, w.grants[i]);
  }

  // ---------- a harmful failure ----------

  lemma {:induction false} RunOfFour(cfg: Config, s: Store, a: Event, b: Event, c: Event, d: Event)
    ensures Run(cfg, s, [a, b, c, d]) ==
            RunStep(cfg, RunStep(cfg, RunStep(cfg, RunStep(cfg, World(s, []), a), b), c), d)
  {
    RunOneMore(cfg, s, [], a);
    RunOneMore(cfg, s, [a], b);
    RunOneMore(cfg, s, [a, b], c);
    RunOneMore(cfg, s, [a, b, c], d);
    assert [] + [a] == [a] && [a] + [b] == [a, b] && [a, b] + [c] == [a, b, c] && [a, b, c] + [d] == [a, b, c, d];
  }

  /** In a range of one address, the first MAC gets it. */
  lemma {:induction false} OnlyAddressIsServed(only: Quad, mac: Mac, now: int)
    ensures var cfg := Config(Some(only), Some(only), 60);
            var a := QuadValue(only);
            Allocate(cfg, Store([], map[]), mac, now, ALL_OK) ==
            (Store([], map[mac := ActiveLease(mac, a, now + 60)]), Success(a))
  {
    var a := QuadValue(only);
    assert RangeSize(a, a) == 1;
    assert a !in Used([], map[], now);
  }

  lemma {:induction false} GrantsOverlap(only: Quad)
    ensures var cfg := Config(Some(only), Some(only), 60);
            var first := RunStep(cfg, World(Store([], map[]), []), Discover("a", 0, ALL_OK));
            var swept := RunStep(cfg, RunStep(cfg, first, Discover("a", 50, Io(true, true, false))), DeleteExpired(61));
            !Exclusive(RunStep(cfg, swept, Discover("b", 62, ALL_OK)).grants)
  {
    var cfg, a := Config(Some(only), Some(only), 60), QuadValue(only);
    OnlyAddressIsServed(only, "a", 0);
    assert [] + [Grant("a", a, 0, 60)] == [Grant("a", a, 0, 60)];
    OnlyAddressIsServed(only, "b", 62);
    var grants := [Grant("a", a, 0, 60)] + [Grant("a", a, 50, 110)] + [Grant("b", a, 62, 122)];
    assert grants[1].ip == grants[2].ip && grants[1].until >= grants[2].at;
  }

  /**
   The writes matter: a renewal whose write fails is still answered with a full lease time,
   the row expires before it, and the address goes to another MAC while the first still has it.
   */
  lemma {:induction false} LostRenewalBreaksExclusivity(only: Quad)
    ensures var cfg := Config(Some(only), Some(only), 60);
            var lost := Io(true, true, false);
            !Exclusive(Run(cfg, Store([], map[]), [Discover("a", 0, ALL_OK), Discover("a", 50, lost),
                                                   DeleteExpired(61), Discover("b", 62, ALL_OK)]).grants)
  {
    var cfg := Config(Some(only), Some(only), 60);
    RunOfFour(cfg, Store([], map[]), Discover("a", 0, ALL_OK), Discover("a", 50, Io(true, true, false)),
              DeleteExpired(61), Discover("b", 62, ALL_OK));
    GrantsOverlap(only);
  }
}
