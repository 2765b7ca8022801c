/** Client policies: which one decides, and when its schedule is active. */
module Policies {
  import opened Wrappers
  import opened Text

  /** Empty start or end text means no time limit; day is the three-letter day of the clock. */
  datatype Schedule = Schedule(days: string, start: string, end: string)

  datatype Clock = Clock(day: string, minute: Minute)

  type Minute = m: int | 0 <= m < 1440

  datatype Policy = Policy(
    id: nat,
    name: string,
    enabled: bool,
    priority: int,
    action: string,
    schedule: Option<Schedule>,
    categories: seq<string>,
    isDryRun: bool,
    safeSearch: bool)

  datatype Identifier = Ip(ip: string) | Mac(mac: string) | Group(id: nat) | Cidr(cidr: string)

  datatype Client = Client(ip: string, mac: string, groups: seq<nat>)

  /**
   The assignments, and two questions that other parts answer: which pattern of a category
   matches a name, if one does, and whether a network contains an address.
   */
  datatype Environment = Environment(
    assignments: map<Identifier, seq<nat>>,
    categoryPattern: (string, string) -> Option<string>,
    contains: (string, string) -> bool)

  // ---------- time of day ----------

  function Digit(n: int): char
    requires 0 <= n < 10
  {
    "0123456789"[n]
  }

  /** A time of day as text, two digits each for hours and minutes. */
  function TimeText(m: Minute): string {
    var h, n := m / 60, m % 60;
    [Digit(h / 10), Digit(h % 10), ':', Digit(n / 10), Digit(n % 10)]
  }

  lemma {:induction false} DigitsAreOrdered(a: int, b: int)
    requires 0 <= a < 10 && 0 <= b < 10
    ensures Digit(a) < Digit(b) <==> a < b
    ensures Digit(a) == Digit(b) <==> a == b
  {
  }

  lemma {:induction false} LessByFirst(c: char, s: string, d: char, t: string)
    ensures Less([c] + s, [d] + t) <==> c < d || (c == d && Less(s, t))
  {
    assert ([c] + s)[1..] == s && ([d] + t)[1..] == t;
  }

  lemma {:induction false} LessOfTwo(a: string, b: string)
    requires |a| == 2 && |b| == 2
    ensures Less(a, b) <==> a[0] < b[0] || (a[0] == b[0] && a[1] < b[1])
  {
    assert a == [a[0]] + [a[1]] && b == [b[0]] + [b[1]];
    LessByFirst(a[0], [a[1]], b[0], [b[1]]);
    LessByFirst(a[1], "", b[1], "");
    assert [a[1]] == [a[1]] + "" && [b[1]] == [b[1]] + "";
  }

  lemma {:induction false} LessOfFour(a: string, b: string)
    requires |a| == 5 && |b| == 5 && a[2] == b[2]
    ensures Less(a, b) <==>
            a[0] < b[0] || (a[0] == b[0] && (a[1] < b[1] || (a[1] == b[1] &&
              (a[3] < b[3] || (a[3] == b[3] && a[4] < b[4])))))
  {
    assert a == [a[0]] + a[1..] && b == [b[0]] + b[1..];
    LessByFirst(a[0], a[1..], b[0], b[1..]);
    assert a[1..] == [a[1]] + a[2..] && b[1..] == [b[1]] + b[2..];
    LessByFirst(a[1], a[2..], b[1], b[2..]);
    assert a[2..] == [a[2]] + a[3..] && b[2..] == [b[2]] + b[3..];
    LessByFirst(a[2], a[3..], b[2], b[3..]);
    LessOfTwo(a[3..], b[3..]);
  }

  /** Comparing the texts compares the times. */
  lemma {:induction false} TextOrderIsTimeOrder(a: Minute, b: Minute)
    ensures Less(TimeText(a), TimeText(b)) <==> a < b
  {
    LessOfFour(TimeText(a), TimeText(b));
    DigitsAreOrdered(a / 60 / 10, b / 60 / 10);
    DigitsAreOrdered(a / 60 % 10, b / 60 % 10);
    DigitsAreOrdered(a % 60 / 10, b % 60 / 10);
    DigitsAreOrdered(a % 60 % 10, b % 60 % 10);
  }

  /** What a digit of such a text stands for. */
  function DigitValue(c: char): int {
    c as int - '0' as int
  }

  /** The text of a time reads as that time. */
  lemma {:induction false} TextReadsAsTime(m: Minute)
    ensures var t := TimeText(m);
            && |t| == 5 && t[2] == ':'
            && (forall i :: 0 <= i < 5 && i != 2 ==> 0 <= DigitValue(t[i]) < 10)
            && m == (DigitValue(t[0]) * 10 + DigitValue(t[1])) * 60 + DigitValue(t[3]) * 10 + DigitValue(t[4])
  {
    DigitReads(m / 60 / 10);
    DigitReads(m / 60 % 10);
    DigitReads(m % 60 / 10);
    DigitReads(m % 60 % 10);
  }

  lemma {:induction false} DigitReads(n: int)
    requires 0 <= n < 10
    ensures DigitValue(Digit(n)) == n
  {
  }

  predicate Contains(s: string, t: string) {
    exists i | 0 <= i <= |s| :: t <= s[i..]
  }

  predicate IsScheduleActive(schedule: Option<Schedule>, clock: Clock) {
    match schedule
    case None => true
    case Some(s) =>
      && (s.days == "" || Contains(ToLower(s.days), clock.day))
      && (s.start == "" || s.end == "" ||
          var now := TimeText(clock.minute);
          if Less(s.end, s.start) then !(Less(now, s.start) && Less(s.end, now))
          else !(Less(now, s.start) || Less(s.end, now)))
  }

  /** The time since the start, around the clock, is at most the length of the window. */
  predicate InWindow(now: Minute, start: Minute, end: Minute) {
    (now - start) % 1440 <= (end - start) % 1440
  }

  lemma {:induction false} CyclicInterval(now: Minute, start: Minute, end: Minute)
    ensures InWindow(now, start, end) <==>
            if end < start then !(now < start && end < now) else !(now < start || end < now)
  {
  }

  /**
   With times written as two-digit hours and minutes, a schedule is active on its days
   exactly when the time since its start, around the clock, is at most its length, so also
   when it runs past midnight.
   */
  lemma {:induction false} ActiveIsCyclicInterval(days: string, start: Minute, end: Minute, clock: Clock)
    ensures IsScheduleActive(Some(Schedule(days, TimeText(start), TimeText(end))), clock) <==>
            && (days == "" || Contains(ToLower(days), clock.day))
            && InWindow(clock.minute, start, end)
  {
    TextOrderIsTimeOrder(end, start);
    TextOrderIsTimeOrder(clock.minute, start);
    TextOrderIsTimeOrder(end, clock.minute);
    CyclicInterval(clock.minute, start, end);
    assert |TimeText(start)| == |TimeText(end)| == 5;
  }

  /** The text of the day stands in the list of days from there on, in any letter case. */
  predicate DayAt(days: string, day: string, i: nat) {
    i + |day| <= |days| && SameIgnoringCase(days[i..i + |day|], day)
  }

  ghost predicate DayOccurs(days: string, day: string) {
    exists i: nat :: DayAt(days, day, i)
  }

  predicate NoCapitals(s: string) {
    forall i | 0 <= i < |s| :: !('A' <= s[i] <= 'Z')
  }

  lemma {:induction false} DayIsNamedExactly(days: string, day: string)
    requires NoCapitals(day)
    ensures Contains(ToLower(days), day) <==> DayOccurs(days, day)
  {
    var lower := ToLower(days);
    forall i: nat | i <= |days| ensures day <= lower[i..] <==> DayAt(days, day, i) {
    }
  }

  /** Which schedules leave the time of day out: none at all, and those without a start or an end. */
  lemma {:induction false} ActiveAllDay(s: Schedule, clock: Clock)
    requires s.start == "" || s.end == ""
    requires NoCapitals(clock.day)
    ensures IsScheduleActive(None, clock)
    ensures IsScheduleActive(Some(s), clock) <==> s.days == "" || DayOccurs(s.days, clock.day)
  {
    DayIsNamedExactly(s.days, clock.day);
  }

  /** Other texts are compared as strings: active from the start to the end, or outside the time between the two. */
  lemma {:induction false} ActiveBetweenTexts(s: Schedule, clock: Clock)
    requires s.days == "" && s.start != "" && s.end != ""
    ensures var now := TimeText(clock.minute);
            IsScheduleActive(Some(s), clock) <==>
            if s.start == s.end || Less(s.start, s.end) then
              (s.start == now || Less(s.start, now)) && (now == s.end || Less(now, s.end))
            else
              (s.start == now || Less(s.start, now)) || (now == s.end || Less(now, s.end))
  {
    var now := TimeText(clock.minute);
    LessIsTotal(s.start, s.end);
    LessIsTotal(s.start, now);
    LessIsTotal(now, s.end);
  }

  /** The days of the clock, in order. */
  const WEEKDAYS: seq<string> := ["sun", "mon", "tue", "wed", "thu", "fri", "sat"]

  function Yesterday(day: nat): nat
    requires day < 7
  {
    if day == 0 then 6 else day - 1
  }

  predicate NamesDay(days: string, day: nat)
    requires day < 7
  {
    days == "" || Contains(ToLower(days), WEEKDAYS[day])
  }

  /**
   The other reading of a window past midnight, that of the comment on it: it belongs to the
   day it starts on, so its part after midnight goes by the day before.
   */
  predicate ActiveByStartDay(days: string, start: Minute, end: Minute, day: nat, minute: Minute)
    requires day < 7
  {
    && NamesDay(days, if end < start && minute <= end then Yesterday(day) else day)
    && InWindow(minute, start, end)
  }

  /** The two readings agree at a moment exactly outside that part, or if both days are named or neither is. */
  lemma {:induction false} ReadingsAgreeAt(days: string, start: Minute, end: Minute, day: nat, minute: Minute)
    requires day < 7
    ensures (IsScheduleActive(Some(Schedule(days, TimeText(start), TimeText(end))), Clock(WEEKDAYS[day], minute)) <==>
             ActiveByStartDay(days, start, end, day, minute)) <==>
            (end < start && minute <= end ==> NamesDay(days, day) == NamesDay(days, Yesterday(day)))
  {
    ActiveIsCyclicInterval(days, start, end, Clock(WEEKDAYS[day], minute));
    if end < start && minute <= end {
      CyclicInterval(minute, start, end);
    }
  }

  ghost predicate ReadingsAgree(days: string, start: Minute, end: Minute) {
    forall day: nat, minute: Minute :: day < 7 ==>
      (IsScheduleActive(Some(Schedule(days, TimeText(start), TimeText(end))), Clock(WEEKDAYS[day], minute)) <==>
       ActiveByStartDay(days, start, end, day, minute))
  }

  /**
   So they agree at all moments exactly for windows within a day, and for schedules that name
   all seven days or none of them.
   */
  lemma {:induction false} ReadingsAgreeExactly(days: string, start: Minute, end: Minute)
    ensures ReadingsAgree(days, start, end) <==>
            start <= end || (forall day: nat :: day < 7 ==> NamesDay(days, day))
            || (forall day: nat :: day < 7 ==> !NamesDay(days, day))
  {
    forall day: nat, minute: Minute | day < 7
      ensures (IsScheduleActive(Some(Schedule(days, TimeText(start), TimeText(end))), Clock(WEEKDAYS[day], minute)) <==>
               ActiveByStartDay(days, start, end, day, minute)) <==>
              (end < start && minute <= end ==> NamesDay(days, day) == NamesDay(days, Yesterday(day)))
    {
      ReadingsAgreeAt(days, start, end, day, minute);
    }
    if ReadingsAgree(days, start, end) && end < start {
      var minute: Minute := 0;
      forall day: nat | day < 7 ensures NamesDay(days, day) == NamesDay(days, Yesterday(day)) {
        var schedule := Some(Schedule(days, TimeText(start), TimeText(end)));
        assert IsScheduleActive(schedule, Clock(WEEKDAYS[day], minute)) <==>
               ActiveByStartDay(days, start, end, day, minute);
      }
      SameAllWeek(days, 6);
    }
  }

  lemma {:induction false} SameAllWeek(days: string, last: nat)
    requires last < 7 && forall day: nat :: day < 7 ==> NamesDay(days, day) == NamesDay(days, Yesterday(day))
    ensures forall day: nat :: day <= last ==> NamesDay(days, day) == NamesDay(days, 0)
  {
    if last > 0 {
      SameAllWeek(days, last - 1);
      assert Yesterday(last) == last - 1;
    }
  }

  // ---------- which policies apply ----------

  ghost predicate Assigned(env: Environment, key: Identifier, policy: nat) {
    key in env.assignments && policy in env.assignments[key]
  }

  /** Assigned to the client's address, MAC, one of its groups, or a network with its address. */
  ghost predicate Applies(env: Environment, policy: nat, client: Client) {
    || Assigned(env, Ip(ToLower(client.ip)), policy)
    || Assigned(env, Mac(ToLower(client.mac)), policy)
    || (exists g :: g in client.groups && Assigned(env, Group(g), policy))
    || (exists key :: key in env.assignments && key.Cidr? && env.contains(key.cidr, client.ip)
                      && Assigned(env, key, policy))
  }

  method HasAssignment(env: Environment, key: Identifier, policy: nat) returns (r: bool)
    ensures r <==> Assigned(env, key, policy)
  {
    var ids := if key in env.assignments then env.assignments[key] else [];
    for i := 0 to |ids|
      invariant policy !in ids[..i]
    {
      if ids[i] == policy {
        return true;
      }
    }
    return false;
  }

  method AppliesToClient(env: Environment, policy: nat, client: Client) returns (r: bool)
    ensures r <==> Applies(env, policy, client)
  {
    r := HasAssignment(env, Ip(ToLower(client.ip)), policy);
    if r { return; }
    r := HasAssignment(env, Mac(ToLower(client.mac)), policy);
    if r { return; }
    for i := 0 to |client.groups|
      invariant forall j :: 0 <= j < i ==> !Assigned(env, Group(client.groups[j]), policy)
    {
      r := HasAssignment(env, Group(client.groups[i]), policy);
      if r { return; }
    }
    var todo := env.assignments.Keys;
    while todo != {}
      invariant todo <= env.assignments.Keys
      invariant forall key ::
                  key in env.assignments && key !in todo && key.Cidr? && env.contains(key.cidr, client.ip) ==>
                  !Assigned(env, key, policy)
      decreases todo
    {
      var key :| key in todo;
      todo := todo - {key};
      if key.Cidr? && env.contains(key.cidr, client.ip) {
        r := HasAssignment(env, key, policy);
        if r { return; }
      }
    }
    r := false;
  }

  // ---------- the deciding policy ----------

  predicate BlocksNames(p: Policy) {
    ToLower(p.action) in {"block", "nxdomain", "null"}
  }

  predicate AllowsNames(p: Policy) {
    ToLower(p.action) == "allow"
  }

  /** Which actions block and which allow, in any letter case; no action does both. */
  lemma {:induction false} ActionsExactly(p: Policy)
    ensures BlocksNames(p) <==>
            || SameIgnoringCase(p.action, "block") || SameIgnoringCase(p.action, "nxdomain")
            || SameIgnoringCase(p.action, "null")
    ensures AllowsNames(p) <==> SameIgnoringCase(p.action, "allow")
    ensures !(BlocksNames(p) && AllowsNames(p))
  {
    SmallLetters();
    LowerForgetsCase(p.action, "block");
    LowerForgetsCase(p.action, "nxdomain");
    LowerForgetsCase(p.action, "null");
    LowerForgetsCase(p.action, "allow");
  }

  lemma {:induction false} SmallLetters()
    ensures ToLower("block") == "block" && ToLower("nxdomain") == "nxdomain" && ToLower("null") == "null"
    ensures ToLower("allow") == "allow"
  {
  }

  ghost predicate CoversName(env: Environment, p: Policy, name: string) {
    p.categories == [] || exists c :: c in p.categories && env.categoryPattern(name, c).Some?
  }

  /** The policy takes a decision about the name for this client now. */
  ghost predicate Fires(env: Environment, p: Policy, client: Client, name: string, clock: Clock) {
    && p.enabled && Applies(env, p.id, client) && IsScheduleActive(p.schedule, clock)
    && (BlocksNames(p) || AllowsNames(p)) && CoversName(env, p, name)
  }

  /** Without a schedule, a policy fires at any time. */
  lemma {:induction false} FiresWithoutSchedule(env: Environment, p: Policy, client: Client, name: string,
                                                clock: Clock)
    requires p.schedule == None
    ensures Fires(env, p, client, name, clock) <==>
            && p.enabled && Applies(env, p.id, client)
            && (BlocksNames(p) || AllowsNames(p)) && CoversName(env, p, name)
  {
  }

  /** The decision: whether the name is blocked, with which action, by which policy, why, and by which category. */
  datatype Decision =
    | NoDecision
    | Decision(blocked: bool, action: string, policy: Policy, reason: string, category: Option<string>)

  /** The first category of a list that has the name is its i-th. */
  ghost predicate FirstCategory(env: Environment, categories: seq<string>, name: string, i: nat) {
    && i < |categories| && env.categoryPattern(name, categories[i]).Some?
    && (forall j :: 0 <= j < i ==> env.categoryPattern(name, categories[j]).None?)
  }

  method FindCategory(env: Environment, categories: seq<string>, name: string) returns (c: Option<string>,
                      pattern: string)
    ensures match c
            case Some(x) =>
              && env.categoryPattern(name, x) == Some(pattern)
              && exists i: nat :: FirstCategory(env, categories, name, i) && categories[i] == x
            case None => forall x :: x in categories ==> env.categoryPattern(name, x).None?
  {
    for i := 0 to |categories|
      invariant forall j :: 0 <= j < i ==> env.categoryPattern(name, categories[j]).None?
    {
      var found := env.categoryPattern(name, categories[i]);
      if found.Some? {
        assert FirstCategory(env, categories, name, i);
        return Some(categories[i]), found.value;
      }
    }
    c, pattern := None, "";
  }

  /** Position k holds the first policy of the list that fires. */
  ghost predicate FirstToFire(env: Environment, policies: seq<Policy>, client: Client, name: string, clock: Clock,
                              k: nat) {
    && k < |policies| && Fires(env, policies[k], client, name, clock)
    && (forall j :: 0 <= j < k ==> !Fires(env, policies[j], client, name, clock))
  }

  /** The action, the reason and the category that are reported for a policy that fires. */
  ghost predicate Reports(env: Environment, p: Policy, name: string, action: string, reason: string,
                          category: Option<string>) {
    && action == (if BlocksNames(p) then p.action else "allow")
    && match category
       case None =>
         p.categories == [] && reason == if BlocksNames(p) then "unconditional block" else "unconditional allow"
       case Some(c) =>
         && env.categoryPattern(name, c).Some?
         && reason == "category:" + c + " pattern:" + env.categoryPattern(name, c).value
         && exists i: nat :: FirstCategory(env, p.categories, name, i) && p.categories[i] == c
  }

  /** What the list decides. */
  ghost predicate Decides(env: Environment, policies: seq<Policy>, client: Client, name: string, clock: Clock,
                          d: Decision) {
    match d
    case NoDecision => forall j :: 0 <= j < |policies| ==> !Fires(env, policies[j], client, name, clock)
    case Decision(blocked, action, p, reason, category) =>
      && blocked == BlocksNames(p) && Reports(env, p, name, action, reason, category)
      && exists k: nat :: FirstToFire(env, policies, client, name, clock, k) && policies[k] == p
  }

  method ShouldBlockDetailed(env: Environment, policies: seq<Policy>, client: Client, name: string, clock: Clock)
    returns (d: Decision)
    ensures Decides(env, policies, client, name, clock, d)
  {
    for i := 0 to |policies|
      invariant forall j :: 0 <= j < i ==> !Fires(env, policies[j], client, name, clock)
    {
      var p := policies[i];
      if !p.enabled { continue; }
      var applies := AppliesToClient(env, p.id, client);
      if !applies { continue; }
      if !IsScheduleActive(p.schedule, clock) { continue; }
      var action := ToLower(p.action);
      if action == "block" || action == "nxdomain" || action == "null" {
        if |p.categories| == 0 {
          assert FirstToFire(env, policies, client, name, clock, i);
          return Decision(true, p.action, p, "unconditional block", None);
        }
        var c, pattern := FindCategory(env, p.categories, name);
        if c.Some? {
          assert FirstToFire(env, policies, client, name, clock, i);
          return Decision(true, p.action, p, "category:" + c.value + " pattern:" + pattern, c);
        }
      }
      if action == "allow" {
        if |p.categories| == 0 {
          assert FirstToFire(env, policies, client, name, clock, i);
          return Decision(false, "allow", p, "unconditional allow", None);
        }
        var c, pattern := FindCategory(env, p.categories, name);
        if c.Some? {
          assert FirstToFire(env, policies, client, name, clock, i);
          return Decision(false, "allow", p, "category:" + c.value + " pattern:" + pattern, c);
        }
      }
    }
    d := NoDecision;
  }

  /** In a list ordered by falling priority, no policy that fires outranks the one that decides. */
  lemma {:induction false} DeciderIsNotOutranked(env: Environment, policies: seq<Policy>, client: Client, name: string,
                                                 clock: Clock, d: Decision, q: Policy)
    requires forall i, j :: 0 <= i < j < |policies| ==> policies[i].priority >= policies[j].priority
    requires Decides(env, policies, client, name, clock, d)
    requires q in policies && Fires(env, q, client, name, clock)
    ensures d.Decision? && q.priority <= d.policy.priority
  {
    var j :| 0 <= j < |policies| && policies[j] == q;
    var k: nat :| FirstToFire(env, policies, client, name, clock, k) && policies[k] == d.policy;
  }

  /** A policy that does not fire can be put in or taken out anywhere without effect. */
  lemma {:induction false} IdlePoliciesDoNotMatter(env: Environment, before: seq<Policy>, idle: Policy,
                                                   after: seq<Policy>,
                                                   client: Client, name: string, clock: Clock, d: Decision)
    requires !Fires(env, idle, client, name, clock)
    ensures Decides(env, before + [idle] + after, client, name, clock, d) <==>
            Decides(env, before + after, client, name, clock, d)
  {
    var long, short := before + [idle] + after, before + after;
    var n := |before|;
    assert forall j :: 0 <= j < n ==> long[j] == short[j];
    assert forall j :: n <= j < |short| ==> long[j + 1] == short[j];
    assert forall j :: n < j < |long| ==> long[j] == short[j - 1];
    forall k: nat | FirstToFire(env, short, client, name, clock, k)
      ensures exists i: nat :: FirstToFire(env, long, client, name, clock, i) && long[i] == short[k]
    {
      assert FirstToFire(env, long, client, name, clock, if k < n then k else k + 1);
    }
    forall k: nat | FirstToFire(env, long, client, name, clock, k)
      ensures exists i: nat :: FirstToFire(env, short, client, name, clock, i) && short[i] == long[k]
    {
      assert FirstToFire(env, short, client, name, clock, if k < n then k else k - 1);
    }
  }
}
