/** The verdict of a client's groups on a name. */
module Groups {
  import opened Wrappers
  import opened Collections
  import opened Text
  import opened Matching

  type GroupId = nat

  datatype GroupRow = GroupRow(name: string, useGlobal: bool)

  /**
   The cached tables: per group its name and whether it uses the global policies, the groups
   assigned to an address or a MAC, the default group (0 for none), and the two indexes of a group.
   */
  datatype Cache = Cache(
    groups: map<GroupId, GroupRow>,
    defaultGroup: GroupId,
    assignments: map<string, seq<GroupId>>,
    blocked: map<GroupId, Index>,
    allowed: map<GroupId, Index>)

  datatype Source = GlobalWhitelist | GroupAllowed | GroupBlocked | GlobalBlacklist | NoMatch

  function NormalizeDomain(d: string): string {
    TrimSuffix(ToLower(TrimSpace(d)), ".")
  }

  function IdentifierKey(kind: string, identifier: string): string {
    ToLower(TrimSpace(kind)) + ":" + ToLower(TrimSpace(identifier))
  }

  /** The spellings of one name: any letter case, white space around it, and one trailing dot or none. */
  lemma {:induction false} SpellingsAreOneName(before: string, name: string, dot: string, after: string)
    requires AllSpace(before) && AllSpace(after) && dot in {"", "."}
    requires IsTrimmed(name) && !HasSuffix(name, ".")
    ensures NormalizeDomain(before + name + dot + after) == ToLower(name)
  {
    assert before + name + dot + after == before + (name + dot) + after;
    TrimOfPadded(before, name + dot, after);
    LowerOfConcat(name, dot);
    var lower := ToLower(name);
    assert ToLower(dot) == dot;
    assert name != "" ==> lower[|lower| - 1..] == [Lower(name[|name| - 1])] && name[|name| - 1..] == [name[|name| - 1]];
    assert (lower + ".")[|lower|..] == ".";
  }

  /** An assignment is found under its identifier in any letter case and with white space around it, and only there. */
  lemma {:induction false} KeysExactly(a: string, b: string)
    ensures IdentifierKey("ip", a) == IdentifierKey("ip", b) <==> SameIgnoringCase(TrimSpace(a), TrimSpace(b))
    ensures IdentifierKey("mac", a) == IdentifierKey("mac", b) <==> SameIgnoringCase(TrimSpace(a), TrimSpace(b))
    ensures IdentifierKey("ip", a) != IdentifierKey("mac", b)
  {
    LowerForgetsCase(TrimSpace(a), TrimSpace(b));
    KeyOfKind("ip", a);
    KeyOfKind("ip", b);
    KeyOfKind("mac", a);
    KeyOfKind("mac", b);
  }

  lemma {:induction false} KeyOfKind(kind: string, identifier: string)
    requires kind == "ip" || kind == "mac"
    ensures var key := IdentifierKey(kind, identifier);
            && |key| > |kind| && key[..|kind|] == kind && key[|kind|] == ':'
            && key[|kind| + 1..] == ToLower(TrimSpace(identifier))
  {
    assert TrimSpace(kind) == kind && ToLower(kind) == kind;
  }

  // ---------- the groups of a client ----------

  ghost predicate AssignedTo(c: Cache, key: string, g: GroupId) {
    key in c.assignments && g in c.assignments[key]
  }

  /** The groups assigned to the client's address or MAC, or the default group if there are none. */
  ghost predicate ClientIn(c: Cache, ip: string, mac: string, g: GroupId) {
    var ipKey, macKey := IdentifierKey("ip", ip), IdentifierKey("mac", mac);
    if forall h :: !AssignedTo(c, ipKey, h) && !AssignedTo(c, macKey, h)
    then g == c.defaultGroup != 0
    else AssignedTo(c, ipKey, g) || AssignedTo(c, macKey, g)
  }

  method AppendUnseen(ids: seq<GroupId>, more: seq<GroupId>) returns (r: seq<GroupId>)
    requires Distinct(ids)
    ensures Distinct(r)
    ensures forall g :: g in r <==> g in ids || g in more
  {
    r := ids;
    for i := 0 to |more|
      invariant Distinct(r)
      invariant forall g :: g in r <==> g in ids || g in more[..i]
    {
      if more[i] !in r {
        r := r + [more[i]];
      }
      assert more[..i + 1] == more[..i] + [more[i]];
    }
    assert more[..|more|] == more;
  }

  method GetGroupIDsForClient(c: Cache, ip: string, mac: string) returns (ids: seq<GroupId>)
    ensures Distinct(ids)
    ensures forall g :: g in ids <==> ClientIn(c, ip, mac, g)
  {
    var ipKey, macKey := IdentifierKey("ip", ip), IdentifierKey("mac", mac);
    ids := AppendUnseen([], if ipKey in c.assignments then c.assignments[ipKey] else []);
    ids := AppendUnseen(ids, if macKey in c.assignments then c.assignments[macKey] else []);
    if ids == [] {
      assert forall h :: h in ids <==> AssignedTo(c, ipKey, h) || AssignedTo(c, macKey, h);
      if c.defaultGroup != 0 {
        ids := [c.defaultGroup];
      }
    } else {
      assert ids[0] in ids;
      assert AssignedTo(c, ipKey, ids[0]) || AssignedTo(c, macKey, ids[0]);
    }
  }

  // ---------- the verdict ----------

  ghost predicate GroupBlocks(rx: RegexEngine, c: Cache, g: GroupId, name: string) {
    g in c.groups && g in c.blocked && Matches(rx, c.blocked[g], name)
  }

  ghost predicate GroupAllows(rx: RegexEngine, c: Cache, g: GroupId, name: string, full: string) {
    g in c.groups && g in c.allowed && (Matches(rx, c.allowed[g], name) || Matches(rx, c.allowed[g], full))
  }

  ghost predicate GroupUsesGlobal(c: Cache, g: GroupId) {
    g in c.groups && c.groups[g].useGlobal
  }

  /** What decides: no whitelist entry, no allowing group, and a reason to block. */
  ghost predicate Blocks(rx: RegexEngine, c: Cache, ids: seq<GroupId>, name: string, full: string,
                         globalBlocked: bool, globalWhitelisted: bool) {
    && !globalWhitelisted
    && (forall g :: g in ids ==> !GroupAllows(rx, c, g, name, full))
    && (|| (exists g :: g in ids && GroupBlocks(rx, c, g, name))
        || (globalBlocked && exists g :: g in ids && GroupUsesGlobal(c, g)))
  }

  /** Whether an index matches: its lookup, without the pattern. */
  predicate Found(rx: RegexEngine, ix: Index, name: string)
    ensures Found(rx, ix, name) <==> Matches(rx, ix, name)
  {
    LookupIsExact(rx, ix, name);
    Lookup(rx, ix, name).Some?
  }

  /** Why a group blocks a name, if it does. */
  function BlockReason(rx: RegexEngine, c: Cache, g: GroupId, name: string): (r: Option<string>)
    ensures r.Some? <==> GroupBlocks(rx, c, g, name)
  {
    if g in c.groups && g in c.blocked && Found(rx, c.blocked[g], name) then
      Some("Group: " + c.groups[g].name + ", List: Blocked domains, Pattern: " + Lookup(rx, c.blocked[g], name).value)
    else None
  }

  /** Why a group allows a name, if it does; its short form is looked up first. */
  function AllowReason(rx: RegexEngine, c: Cache, g: GroupId, name: string, full: string): (r: Option<string>)
    ensures r.Some? <==> GroupAllows(rx, c, g, name, full)
  {
    if g in c.groups && g in c.allowed then
      var group := "Group: " + c.groups[g].name;
      if Found(rx, c.allowed[g], name) then
        Some(group + ", List: Allowed domains, Pattern: " + Lookup(rx, c.allowed[g], name).value)
      else if Found(rx, c.allowed[g], full) then
        Some(group + ", List: Allowed domains (full), Pattern: " + Lookup(rx, c.allowed[g], full).value)
      else None
    else None
  }

  /** The reasons a group is asked for. */
  datatype Ask = ToBlock(name: string) | ToAllow(name: string, full: string)

  function Reason(rx: RegexEngine, c: Cache, ask: Ask, g: GroupId): Option<string> {
    match ask
    case ToBlock(name) => BlockReason(rx, c, g, name)
    case ToAllow(name, full) => AllowReason(rx, c, g, name, full)
  }

  /** The last reason in the order of the groups. */
  function LastReason(rx: RegexEngine, c: Cache, ask: Ask, ids: seq<GroupId>): Option<string> {
    if ids == [] then None
    else
      var n := |ids| - 1;
      var reason := Reason(rx, c, ask, ids[n]);
      if reason.Some? then reason else LastReason(rx, c, ask, ids[..n])
  }

  /** There is one exactly when some group has one. */
  lemma {:induction false} ReasonExists(rx: RegexEngine, c: Cache, ask: Ask, ids: seq<GroupId>)
    ensures LastReason(rx, c, ask, ids).Some? <==> exists g :: g in ids && Reason(rx, c, ask, g).Some?
  {
    if ids != [] {
      var n := |ids| - 1;
      ReasonExists(rx, c, ask, ids[..n]);
      assert forall g :: g in ids <==> g in ids[..n] || g == ids[n];
    }
  }

  /** And it is that of the last group that has one. */
  lemma {:induction false} ReasonIsLast(rx: RegexEngine, c: Cache, ask: Ask, ids: seq<GroupId>, k: nat)
    requires k < |ids| && Reason(rx, c, ask, ids[k]).Some?
    requires forall i :: k < i < |ids| ==> Reason(rx, c, ask, ids[i]).None?
    ensures LastReason(rx, c, ask, ids) == Reason(rx, c, ask, ids[k])
  {
    if k < |ids| - 1 {
      ReasonIsLast(rx, c, ask, ids[..|ids| - 1], k);
    }
  }

  /** What a reason says: the group, the list, and the pattern that the index reports, the short name going first. */
  lemma {:induction false} ReasonsTell(rx: RegexEngine, c: Cache, g: GroupId, name: string, full: string)
    ensures GroupBlocks(rx, c, g, name) ==>
              BlockReason(rx, c, g, name).value ==
              "Group: " + c.groups[g].name + ", List: Blocked domains, Pattern: " + Reported(rx, c.blocked[g], name)
    ensures GroupAllows(rx, c, g, name, full) ==>
              AllowReason(rx, c, g, name, full).value ==
              if Matches(rx, c.allowed[g], name) then
                "Group: " + c.groups[g].name + ", List: Allowed domains, Pattern: " + Reported(rx, c.allowed[g], name)
              else
                "Group: " + c.groups[g].name + ", List: Allowed domains (full), Pattern: "
                + Reported(rx, c.allowed[g], full)
  {
  }

  /** The pattern an index reports for a name it matches. */
  function Reported(rx: RegexEngine, ix: Index, name: string): string
    requires Matches(rx, ix, name)
  {
    LookupIsExact(rx, ix, name);
    Lookup(rx, ix, name).value
  }

  lemma {:induction false} ReasonStep(rx: RegexEngine, c: Cache, ask: Ask, ids: seq<GroupId>, n: nat)
    requires n < |ids|
    ensures var reason := Reason(rx, c, ask, ids[n]);
            LastReason(rx, c, ask, ids[..n + 1]) == if reason.Some? then reason else LastReason(rx, c, ask, ids[..n])
  {
    assert ids[..n + 1][..n] == ids[..n];
  }

  /** The loop over the groups: the last reasons to block and to allow, and whether one uses the global policies. */
  method CheckGroups(rx: RegexEngine, c: Cache, ids: seq<GroupId>, name: string, full: string)
    returns (blocked: Option<string>, allowed: Option<string>, usesGlobal: bool)
    ensures blocked == LastReason(rx, c, ToBlock(name), ids)
    ensures allowed == LastReason(rx, c, ToAllow(name, full), ids)
    ensures usesGlobal <==> exists g :: g in ids && GroupUsesGlobal(c, g)
  {
    blocked, allowed, usesGlobal := None, None, false;
    for i := 0 to |ids|
      invariant usesGlobal <==> exists j :: 0 <= j < i && GroupUsesGlobal(c, ids[j])
      invariant blocked == LastReason(rx, c, ToBlock(name), ids[..i])
      invariant allowed == LastReason(rx, c, ToAllow(name, full), ids[..i])
    {
      ReasonStep(rx, c, ToBlock(name), ids, i);
      ReasonStep(rx, c, ToAllow(name, full), ids, i);
      var g := ids[i];
      if g in c.groups && c.groups[g].useGlobal {
        usesGlobal := true;
      }
      var blockReason := BlockReason(rx, c, g, name);
      if blockReason.Some? {
        blocked := blockReason;
      }
      var allowReason := AllowReason(rx, c, g, name, full);
      if allowReason.Some? {
        allowed := allowReason;
      }
    }
    assert ids[..|ids|] == ids;
  }

  method ShouldBlockDetailed(rx: RegexEngine, c: Cache, ip: string, mac: string, domainName: string, fullDomain: string,
                             globalBlocked: bool, globalWhitelisted: bool)
    returns (blocked: bool, source: Source, reason: string, ghost ids: seq<GroupId>)
    ensures forall g :: g in ids <==> ClientIn(c, ip, mac, g)
    ensures blocked <==> Blocks(rx, c, ids, NormalizeDomain(domainName), NormalizeDomain(fullDomain),
                                globalBlocked, globalWhitelisted)
    ensures source == GlobalWhitelist <==> globalWhitelisted
    ensures source == GroupAllowed <==>
            (!globalWhitelisted &&
             exists g :: g in ids && GroupAllows(rx, c, g, NormalizeDomain(domainName), NormalizeDomain(fullDomain)))
    ensures blocked <==> source in {GroupBlocked, GlobalBlacklist}
    ensures var name, full := NormalizeDomain(domainName), NormalizeDomain(fullDomain);
            match source
            case GlobalWhitelist => reason == full
            case GroupAllowed => Some(reason) == LastReason(rx, c, ToAllow(name, full), ids)
            case GroupBlocked => Some(reason) == LastReason(rx, c, ToBlock(name), ids)
            case GlobalBlacklist => reason == name && globalBlocked && LastReason(rx, c, ToBlock(name), ids) == None
            case NoMatch => reason == ""
  {
    var groupIDs := GetGroupIDsForClient(c, ip, mac);
    ids := groupIDs;
    var name, full := NormalizeDomain(domainName), NormalizeDomain(fullDomain);
    var groupBlocked, groupAllowed, globalEnabled := CheckGroups(rx, c, groupIDs, name, full);
    WhoBlocks(rx, c, ids, name);
    WhoAllows(rx, c, ids, name, full);
    if globalWhitelisted {
      return false, GlobalWhitelist, full, ids;
    }
    if groupAllowed.Some? {
      return false, GroupAllowed, groupAllowed.value, ids;
    }
    if groupBlocked.Some? {
      return true, GroupBlocked, groupBlocked.value, ids;
    }
    if globalEnabled && globalBlocked {
      return true, GlobalBlacklist, name, ids;
    }
    return false, NoMatch, "", ids;
  }

  lemma {:induction false} WhoBlocks(rx: RegexEngine, c: Cache, ids: seq<GroupId>, name: string)
    ensures LastReason(rx, c, ToBlock(name), ids).Some? <==> exists g :: g in ids && GroupBlocks(rx, c, g, name)
  {
    ReasonExists(rx, c, ToBlock(name), ids);
    assert forall g :: Reason(rx, c, ToBlock(name), g).Some? <==> GroupBlocks(rx, c, g, name);
  }

  lemma {:induction false} WhoAllows(rx: RegexEngine, c: Cache, ids: seq<GroupId>, name: string, full: string)
    ensures LastReason(rx, c, ToAllow(name, full), ids).Some? <==>
            exists g :: g in ids && GroupAllows(rx, c, g, name, full)
  {
    ReasonExists(rx, c, ToAllow(name, full), ids);
    assert forall g :: Reason(rx, c, ToAllow(name, full), g).Some? <==> GroupAllows(rx, c, g, name, full);
  }

  /** The verdict depends on the set of groups only, not on their order or repetition. */
  lemma {:induction false} OrderIsIrrelevant(rx: RegexEngine, c: Cache, ids: seq<GroupId>, others: seq<GroupId>,
                                             name: string, full: string, globalBlocked: bool,
                                             globalWhitelisted: bool)
    requires forall g :: g in ids <==> g in others
    ensures Blocks(rx, c, ids, name, full, globalBlocked, globalWhitelisted) <==>
            Blocks(rx, c, others, name, full, globalBlocked, globalWhitelisted)
  {
    assert forall g :: g in ids && GroupBlocks(rx, c, g, name) ==> g in others;
    assert forall g :: g in others && GroupBlocks(rx, c, g, name) ==> g in ids;
  }

  function IndexOf(indexes: map<GroupId, Index>, g: GroupId): Index {
    if g in indexes then indexes[g] else EMPTY_INDEX
  }

  function WithAllowed(rx: RegexEngine, c: Cache, g: GroupId, pattern: string): Cache {
    c.(allowed := c.allowed[g := Added(rx, IndexOf(c.allowed, g), pattern)])
  }

  function WithBlocked(rx: RegexEngine, c: Cache, g: GroupId, pattern: string): Cache {
    c.(blocked := c.blocked[g := Added(rx, IndexOf(c.blocked, g), pattern)])
  }

  lemma {:induction false} AllowsAfter(rx: RegexEngine, c: Cache, g: GroupId, pattern: string, h: GroupId,
                                       name: string, full: string)
    ensures GroupAllows(rx, WithAllowed(rx, c, g, pattern), h, name, full) <==>
            || GroupAllows(rx, c, h, name, full)
            || (h == g && g in c.groups && (PatternMatches(rx, pattern, name) || PatternMatches(rx, pattern, full)))
  {
    AddedMatchesExactly(rx, IndexOf(c.allowed, g), pattern, name);
    AddedMatchesExactly(rx, IndexOf(c.allowed, g), pattern, full);
  }

  lemma {:induction false} BlocksAfter(rx: RegexEngine, c: Cache, g: GroupId, pattern: string, h: GroupId, name: string)
    ensures GroupBlocks(rx, WithBlocked(rx, c, g, pattern), h, name) <==>
            GroupBlocks(rx, c, h, name) || (h == g && g in c.groups && PatternMatches(rx, pattern, name))
  {
    AddedMatchesExactly(rx, IndexOf(c.blocked, g), pattern, name);
  }

  /**
   What one more allow pattern of a group does: it lets through exactly the names it matches,
   for clients in the group; so it never blocks anything.
   */
  lemma {:induction false} AllowNeverBlocks(rx: RegexEngine, c: Cache, g: GroupId, pattern: string, ids: seq<GroupId>,
                                            name: string, full: string, globalBlocked: bool,
                                            globalWhitelisted: bool)
    ensures Blocks(rx, WithAllowed(rx, c, g, pattern), ids, name, full, globalBlocked, globalWhitelisted) <==>
            && Blocks(rx, c, ids, name, full, globalBlocked, globalWhitelisted)
            && !(g in ids && g in c.groups && (PatternMatches(rx, pattern, name) || PatternMatches(rx, pattern, full)))
  {
    var d := WithAllowed(rx, c, g, pattern);
    forall h ensures GroupAllows(rx, d, h, name, full) <==>
                       || GroupAllows(rx, c, h, name, full)
                       || (h == g && g in c.groups
                           && (PatternMatches(rx, pattern, name) || PatternMatches(rx, pattern, full)))
    {
      AllowsAfter(rx, c, g, pattern, h, name, full);
    }
    assert forall h :: GroupBlocks(rx, d, h, name) == GroupBlocks(rx, c, h, name);
    assert forall h :: GroupUsesGlobal(d, h) == GroupUsesGlobal(c, h);
  }

  /**
   What one more block pattern of a group does: it blocks exactly the names it matches, for
   clients in the group, unless something allows them; so it never lets anything through.
   */
  lemma {:induction false} BlockNeverAllows(rx: RegexEngine, c: Cache, g: GroupId, pattern: string, ids: seq<GroupId>,
                                            name: string, full: string, globalBlocked: bool,
                                            globalWhitelisted: bool)
    ensures Blocks(rx, WithBlocked(rx, c, g, pattern), ids, name, full, globalBlocked, globalWhitelisted) <==>
            || Blocks(rx, c, ids, name, full, globalBlocked, globalWhitelisted)
            || (&& !globalWhitelisted && (forall h :: h in ids ==> !GroupAllows(rx, c, h, name, full))
                && g in ids && g in c.groups && PatternMatches(rx, pattern, name))
  {
    var d := WithBlocked(rx, c, g, pattern);
    forall h ensures GroupBlocks(rx, d, h, name) <==>
                       GroupBlocks(rx, c, h, name) || (h == g && g in c.groups && PatternMatches(rx, pattern, name))
    {
      BlocksAfter(rx, c, g, pattern, h, name);
    }
    assert forall h :: GroupAllows(rx, d, h, name, full) == GroupAllows(rx, c, h, name, full);
    assert forall h :: GroupUsesGlobal(d, h) == GroupUsesGlobal(c, h);
  }
}
