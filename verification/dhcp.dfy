/**
 The DHCPv4 lease decisions: what Discover and Request answer, and what they write.
 The lease tables are values here; the classes that update them are in DhcpService.
 */
module Dhcp {
  import opened Wrappers
  import opened Ipv4

  /** A hardware address, as the lower-case text the tables hold. */
  type Mac = string

  /**
   The text of an address in a static lease. Dotted is the form IP.String() gives back;
   any other accepted spelling (an IPv4-mapped one) parses to the same address but is
   a different text.
   */
  datatype IpText = Dotted(addr: Address) | Mapped(addr: Address, spelling: string)

  datatype StaticLease = StaticLease(mac: Mac, ip: IpText, enabled: bool)

  datatype ActiveLease = ActiveLease(mac: Mac, ip: Address, expiresAt: int)

  /** The two tables. The unique index on the MAC makes the second one a map. */
  datatype Store = Store(statics: seq<StaticLease>, active: map<Mac, ActiveLease>)

  /** The configured range (None when its text does not parse) and the lease time. */
  datatype Config = Config(start: Option<Quad>, end: Option<Quad>, duration: nat)

  /** Which of a call's database accesses succeed. */
  datatype Io = Io(staticRead: bool, activeRead: bool, write: bool)

  const ALL_OK := Io(true, true, true)

  datatype Error =
    | InvalidRange
    | NoAddress
    | UpsertFailed
    | StaticMismatch
    | LeaseNotFound
    | NoRequestedAddress

  /** The first enabled static lease of a MAC. */
  function StaticFor(statics: seq<StaticLease>, mac: Mac): Option<StaticLease> {
    if statics == [] then None
    else if statics[0].mac == mac && statics[0].enabled then Some(statics[0])
    else StaticFor(statics[1..], mac)
  }

  /** Another MAC's row has this address, so the unique index on the address refuses it. */
  predicate Conflicts(active: map<Mac, ActiveLease>, mac: Mac, ip: Address) {
    exists m | m in active :: m != mac && active[m].ip == ip
  }

  /** The table after an upsert by MAC, and whether the upsert succeeded. */
  function Upsert(active: map<Mac, ActiveLease>, lease: ActiveLease, ok: bool): (map<Mac, ActiveLease>, bool) {
    if !ok || Conflicts(active, lease.mac, lease.ip) then (active, false)
    else (active[lease.mac := lease], true)
  }

  /** The addresses the range scan skips: every static one and every unexpired active one. */
  ghost predicate InUse(statics: seq<StaticLease>, active: map<Mac, ActiveLease>, now: int, ip: Address) {
    || (exists i :: 0 <= i < |statics| && statics[i].ip.addr == ip)
    || (exists m :: m in active && active[m].ip == ip && active[m].expiresAt > now)
  }

  function StaticAddresses(statics: seq<StaticLease>): set<Address> {
    set l | l in statics :: l.ip.addr
  }

  function LiveAddresses(active: map<Mac, ActiveLease>, now: int): set<Address> {
    set m | m in active && active[m].expiresAt > now :: active[m].ip
  }

  function Used(statics: seq<StaticLease>, active: map<Mac, ActiveLease>, now: int): (used: set<Address>)
    ensures forall ip: Address :: ip in used <==> InUse(statics, active, now, ip)
  {
    StaticAddresses(statics) + LiveAddresses(active, now)
  }

  // ---------- the cyclic range scan ----------

  /** How many steps of Next lead from a to stop. */
  function Distance(a: Address, stop: Address): (d: nat)
    ensures d < SPACE
  {
    (stop - a) % 0x1_0000_0000
  }

  /** How many addresses the scan from start to end visits. */
  function RangeSize(start: Address, end: Address): (n: nat)
    ensures n < SPACE
  {
    Distance(start, Next(end))
  }

  function Offset(start: Address, k: nat): Address {
    (start + k) % 0x1_0000_0000
  }

  /** The scan: the first of n addresses from start on that is not used. */
  function FirstFree(start: Address, n: nat, used: set<Address>): Option<Address>
    decreases n
  {
    if n == 0 then None
    else if start !in used then Some(start)
    else FirstFree(Next(start), n - 1, used)
  }

  lemma {:induction false} OffsetOfNext(start: Address, k: nat)
    ensures Offset(Next(start), k) == Offset(start, k + 1)
  {
    if start + 1 == SPACE {
      assert start + (k + 1) == SPACE + k;
    }
  }

  /** The scan finds a free address exactly when there is one, and it is the first. */
  lemma {:induction false} ScanIsExact(start: Address, n: nat, used: set<Address>)
    ensures match FirstFree(start, n, used)
            case Some(a) =>
              a !in used &&
              exists k: nat :: k < n && a == Offset(start, k) && forall j: nat :: j < k ==> Offset(start, j) in used
            case None => forall k: nat :: k < n ==> Offset(start, k) in used
    decreases n
  {
    if n == 0 {
    } else if start !in used {
      assert Offset(start, 0) == start;
    } else {
      ScanIsExact(Next(start), n - 1, used);
      assert Offset(start, 0) == start;
      forall k: nat ensures Offset(Next(start), k) == Offset(start, k + 1) {
        OffsetOfNext(start, k);
      }
      match FirstFree(start, n, used)
      case Some(a) =>
        var k: nat :| k < n - 1 && a == Offset(Next(start), k) &&
          forall j: nat :: j < k ==> Offset(Next(start), j) in used;
        assert a == Offset(start, k + 1);
        forall j: nat | j < k + 1 ensures Offset(start, j) in used {
          if j > 0 {
            assert Offset(start, j) == Offset(Next(start), j - 1);
          }
        }
      case None =>
        forall k: nat | k < n ensures Offset(start, k) in used {
          if k > 0 {
            assert Offset(start, k) == Offset(Next(start), k - 1);
          }
        }
    }
  }

  /** The addresses of the range. */
  ghost function RangeSet(start: Address, n: nat): set<Address> {
    if n == 0 then {} else RangeSet(start, n - 1) + {Offset(start, n - 1)}
  }

  lemma {:induction false} InRangeSet(start: Address, n: nat, a: Address)
    ensures a in RangeSet(start, n) <==> exists k: nat :: k < n && a == Offset(start, k)
  {
    if n > 0 {
      InRangeSet(start, n - 1, a);
      if a == Offset(start, n - 1) {
        assert exists k: nat :: k < n && a == Offset(start, k);
      }
    }
  }

  lemma {:induction false} OffsetsDiffer(start: Address, j: nat, k: nat)
    requires j < k < SPACE
    ensures Offset(start, j) != Offset(start, k)
  {
  }

  lemma {:induction false} RangeSetSize(start: Address, n: nat)
    requires n <= SPACE
    ensures |RangeSet(start, n)| == n
  {
    if n > 0 {
      RangeSetSize(start, n - 1);
      InRangeSet(start, n - 1, Offset(start, n - 1));
      forall k: nat | k < n - 1 ensures Offset(start, k) != Offset(start, n - 1) {
        OffsetsDiffer(start, k, n - 1);
      }
    }
  }

  lemma {:induction false} SubsetSize<T>(a: set<T>, b: set<T>)
    requires a <= b
    ensures |a| <= |b|
  {
    assert b == a + (b - a);
  }

  /** Pigeonhole: a range with more addresses than are used in it has a free one. */
  lemma {:induction false} PoolNotExhausted(start: Address, n: nat, used: set<Address>)
    requires n <= SPACE
    ensures FirstFree(start, n, used).None? <==> |RangeSet(start, n) * used| == n
  {
    var range := RangeSet(start, n);
    RangeSetSize(start, n);
    ScanIsExact(start, n, used);
    forall a: Address
      ensures a in range <==> exists k: nat :: k < n && a == Offset(start, k)
    {
      InRangeSet(start, n, a);
    }
    match FirstFree(start, n, used)
    case None =>
      assert range * used == range;
    case Some(a) =>
      SubsetSize(range * used, range - {a});
  }

  // ---------- the range, in terms of addresses ----------

  /** From start up to and including end, wrapping around past the last address; nothing if start is just after end. */
  predicate Within(start: Address, end: Address, a: Address) {
    start != Next(end) && if start <= end then start <= a <= end else start <= a || a <= end
  }

  lemma {:induction false} Around(d: int)
    requires -SPACE < d < 2 * SPACE
    ensures d % 0x1_0000_0000 == if d < 0 then d + SPACE else if d < SPACE then d else d - SPACE
  {
  }

  /** The k-th address of the range, counted from start, is k steps from it. */
  lemma {:induction false} OffsetIsWithin(start: Address, end: Address, k: nat)
    requires k < RangeSize(start, end)
    ensures Within(start, end, Offset(start, k)) && Distance(start, Offset(start, k)) == k
  {
    Around(Next(end) - start);
    Around(start + k);
    Around(Offset(start, k) - start);
  }

  lemma {:induction false} WithinHasOffset(start: Address, end: Address, a: Address)
    requires Within(start, end, a)
    ensures Distance(start, a) < RangeSize(start, end) && Offset(start, Distance(start, a)) == a
  {
    Around(Next(end) - start);
    Around(a - start);
    Around(start + Distance(start, a));
  }

  /** The addresses the scan goes through are those of the range. */
  lemma {:induction false} RangeIsWithin(start: Address, end: Address, a: Address)
    ensures a in RangeSet(start, RangeSize(start, end)) <==> Within(start, end, a)
  {
    InRangeSet(start, RangeSize(start, end), a);
    if Within(start, end, a) {
      WithinHasOffset(start, end, a);
    }
    forall k: nat | k < RangeSize(start, end) ensures Within(start, end, Offset(start, k)) {
      OffsetIsWithin(start, end, k);
    }
  }

  lemma {:induction false} RangeCount(start: Address, end: Address)
    ensures RangeSize(start, end) ==
            if start == Next(end) then 0 else if start <= end then end - start + 1 else SPACE - start + end + 1
  {
    Around(Next(end) - start);
  }

  /** The first address of the range, from start on, that is not used. */
  ghost predicate FirstOfRange(start: Address, end: Address, used: set<Address>, a: Address) {
    && Within(start, end, a) && a !in used
    && (forall b: Address :: Within(start, end, b) && Distance(start, b) < Distance(start, a) ==> b in used)
  }

  /** That address is found, and none exactly when the whole range is used. */
  ghost predicate FindsFirst(start: Address, end: Address, used: set<Address>, found: Option<Address>) {
    match found
    case Some(a) => FirstOfRange(start, end, used, a)
    case None => forall a: Address :: Within(start, end, a) ==> a in used
  }

  /** So does the scan. */
  lemma {:induction false} ScanFindsFirst(start: Address, end: Address, used: set<Address>)
    ensures FindsFirst(start, end, used, FirstFree(start, RangeSize(start, end), used))
  {
    var n := RangeSize(start, end);
    ScanIsExact(start, n, used);
    forall b: Address | Within(start, end, b) ensures Distance(start, b) < n && Offset(start, Distance(start, b)) == b {
      WithinHasOffset(start, end, b);
    }
    if FirstFree(start, n, used).Some? {
      var k: nat :| k < n && FirstFree(start, n, used).value == Offset(start, k)
                    && forall j: nat :: j < k ==> Offset(start, j) in used;
      OffsetIsWithin(start, end, k);
    }
  }

  lemma {:induction false} FirstIsUnique(start: Address, end: Address, used: set<Address>, a: Address, b: Address)
    requires FirstOfRange(start, end, used, a) && FirstOfRange(start, end, used, b)
    ensures a == b
  {
    WithinHasOffset(start, end, a);
    WithinHasOffset(start, end, b);
  }

  // ---------- Discover and Request ----------

  /** The tables after a row is renewed; a failing write is ignored. */
  function Renewed(cfg: Config, s: Store, row: ActiveLease, now: int, write: bool): Store {
    s.(active := Upsert(s.active, row.(expiresAt := now + cfg.duration), write).0)
  }

  /** A new row for a MAC, on the first address of the range not used by the rows that were read. */
  function AllocateNew(cfg: Config, s: Store, statics: seq<StaticLease>, active: map<Mac, ActiveLease>,
                       mac: Mac, now: int, write: bool): (Store, Result<Address, Error>) {
    if cfg.start.None? || cfg.end.None? then
      (s, Failure(InvalidRange))
    else
      var start, end := QuadValue(cfg.start.value), QuadValue(cfg.end.value);
      match FirstFree(start, RangeSize(start, end), Used(statics, active, now))
      case None => (s, Failure(NoAddress))
      case Some(ip) =>
        var (table, ok) := Upsert(s.active, ActiveLease(mac, ip, now + cfg.duration), write);
        if ok then (s.(active := table), Success(ip)) else (s, Failure(UpsertFailed))
  }

  function Allocate(cfg: Config, s: Store, mac: Mac, now: int, io: Io): (Store, Result<Address, Error>) {
    var statics := if io.staticRead then s.statics else [];
    var active := if io.activeRead then s.active else map[];
    match StaticFor(statics, mac)
    case Some(row) => (s, Success(row.ip.addr))
    case None =>
      if mac in active then (Renewed(cfg, s, active[mac], now, io.write), Success(active[mac].ip))
      else AllocateNew(cfg, s, statics, active, mac, now, io.write)
  }

  function Confirm(cfg: Config, s: Store, mac: Mac, requested: Address, now: int, io: Io)
    : (Store, Result<Address, Error>) {
    var statics := if io.staticRead then s.statics else [];
    var active := if io.activeRead then s.active else map[];
    match StaticFor(statics, mac)
    case Some(row) =>
      (s, if row.ip == Dotted(requested) then Success(requested) else Failure(StaticMismatch))
    case None =>
      if mac in active && active[mac].ip == requested then
        (Renewed(cfg, s, active[mac], now, io.write), Success(requested))
      else
        (s, Failure(LeaseNotFound))
  }

  /** The address a Request asks for: its option 50, else its client address; 0.0.0.0 is none. */
  function Requested(option: Option<Address>, clientAddr: Address): Result<Address, Error> {
    var a := if option.Some? then option.value else clientAddr;
    if a == 0 then Failure(NoRequestedAddress) else Success(a)
  }

  function Request(cfg: Config, s: Store, mac: Mac, option: Option<Address>, clientAddr: Address, now: int, io: Io)
    : (Store, Result<Address, Error>)
  {
    match Requested(option, clientAddr)
    case Failure(e) => (s, Failure(e))
    case Success(a) => Confirm(cfg, s, mac, a, now, io)
  }

  /** Deleting the rows whose expiry has passed. */
  function Sweep(s: Store, now: int): Store {
    s.(active := map m | m in s.active && s.active[m].expiresAt >= now :: s.active[m])
  }
}
