# GoAway, verified

GoAway is a DNS sinkhole written in Go: it answers and caches DNS queries, blocks names by
lists, groups and policies, hands out DHCPv4 leases, replicates its block list to other
nodes and migrates its database. This project models the parts of the Go backend that hold
state or take decisions, and proves what they keep over whole runs.

Check it with `dafny verify dfyconfig.toml`.

## How to read it

Code that changes state is a class whose methods are proved to do what a pure function says
(`LeaseService.AllocateIP` does `Allocate`); the laws are lemmas about those functions and
about runs of them. Failing database accesses, clock readings, drawn keys, and the outcome of
network exchanges are parameters of the calls, so "every run" ranges over all of them. Times
are integers in nanoseconds; whole seconds are rounded down, as the Go code does.

Every lemma carries `{:induction false}`: each proof is exactly the one written down.

| file | about |
|---|---|
| `wrappers.dfy`, `collections.dfy` | options, results, and two small notions |
| `ipv4.dfy`, `dhcp.dfy`, `dhcp_service.dfy` | DHCPv4 leases (RFC 2131, sections 4.3.1 and 4.3.2) |
| `dhcp_runs.dfy`, `dhcp_exclusivity.dfy`, `dhcp_pool.dfy` | runs of them; leases over time; when there is an address to give |
| `sliding_window.dfy`, `dns_rate_limit.dfy`, `login_rate_limit.dfy` | the two rate limiters and the theory they share |
| `dns_rate_limit_exact.dfy` | on which intervals the bound of the DNS limiter holds |
| `text.dfy`, `matching.dfy`, `domain_tests.dfy` | splitting, joining and suffixes; the pattern index; the other suffix tests |
| `whitelist.dfy`, `groups.dfy`, `policies.dfy` | what uses the index to reach a verdict |
| `dns_cache.dfy`, `dns_cache_runs.dfy`, `dns_cache_answers.dfy` | the answer cache with stale serving (RFC 1035, section 3.2.1; RFC 8767, section 4); its runs; what each resolution answers |
| `replication.dfy`, `replication_service.dfy` | block list replication as a step machine; the objects that carry out its runs |
| `migrations.dfy`, `migration_runs.dfy`, `index_migrations.dfy` | the migration runner, its histories, the plan in use |
| `list_update.dfy`, `api_keys.dfy` | detecting list updates; API keys and their cache |

## Where the code does not meet what one would expect

Each of these has a lemma with the exact condition; some have a concrete case beside it.

- A failed read of the static lease table is taken as an empty table, and a static address can
  be leased: exactly when that read fails, the write succeeds and there is a range
  (`DhcpRuns.KeepsOffStaticsExactly`, `DhcpRuns.FailedStaticReadServesStaticAddress`).
- A failed read of the active lease table is taken as an empty table too, and a MAC that has a
  row is offered another address: Discovers are sure to keep the row's address exactly when that
  read succeeds, or the write fails, or there is no range (`DhcpRuns.KeepsOwnRowExactly`).
- A renewal whose write fails is still answered with a full lease time, which the tables then
  do not back: exactly when the row does not last as long anyway
  (`DhcpExclusivity.GrantIsBackedExactly`). The address can then go to another client too early
  (`DhcpExclusivity.LostRenewalBreaksExclusivity`).
- Two spellings of one address pass as different static leases, and both MACs are served it. No
  two MACs are served one address exactly when none have enabled static leases of one
  (`DhcpRuns.NoSharedAddressExactly`, `DhcpRuns.TwoSpellingsShareAddress`).
- The range scan skips expired leases, but their rows still hold the unique index, so an
  allocation can fail although addresses are free, and every later one does too until the row is
  deleted or its own MAC renews it (`DhcpPool.AllocationSucceedsExactly`,
  `DhcpPool.ExpiredRowBlocksPool`, `DhcpPool.BlockedUntilRenewed`).
- An offered address is refused on request exactly when it is 0.0.0.0, or that of a static
  lease whose stored text is not its dotted form (`DhcpRuns.OfferIsPermanent`,
  `DhcpRuns.OfferedThenRefused`).
- The clock is read before the lock is taken; with readings out of order by a lag, the bound of
  the DNS limiter holds exactly on intervals no longer than the window shortened by the lag, or
  than the whole window where a single query is allowed (`DnsRateLimitExact.BoundHoldsExactly`).
- With no tries allowed, the login limiter indexes an empty list (`LoginRateLimit.NoTriesCrash`).
- A whitelist whose preload failed misses its rows, exactly until each is removed or the table
  is read again (`Whitelist.IndexAgreesExactly`).
- The comment at `backend/blacklist/service.go:246-249` says that a wildcard does not match its
  own base; the index that the block list uses does match it (`DomainTests.WildcardTestsDiffer`).
- The comment at `backend/policy/service.go:199-200` says that a window past midnight goes by
  the day it starts on; the code goes by the current day, which is the same exactly for
  schedules that name all days or none (`Policies.ReadingsAgreeExactly`).
- A CNAME chain is never followed: the request passed on still asks for the first name, which
  counts as visited (`DnsCache.ChainIsOneExchange`).
- An upstream TTL of 0 counts as none given, and the answer is kept for the configured time
  (`DnsCacheRuns.TTLHonouredExactly`).
- Rolling back an index migration drops its indexes even if they were there before it ran
  (`IndexMigrations.SchemaFollowsExactly`); the models tag columns of static leases for indexes
  of their own, which are created first (`IndexMigrations.ModelIndexesAreDropped`).
- A created API key is answered as its row would be exactly when its scopes have no commas and
  no outer space, or include the admin scope (`ApiKeys.CreatedKeyAgreesExactly`).

## Model

| member | source | states |
|---|---|---|
| Ipv4.IncrementAddsOne | backend/dhcp/service.go:628-637 | incrementing a byte string of any length adds one to the number it stands for, and goes from all ones to zero |
| Ipv4.ValueInjective | backend/dhcp/service.go:557-568 | byte strings of one length are the same address exactly when their numbers are equal, so comparing texts or bytes compares addresses |
| Ipv4.CarryStep | backend/dhcp/service.go:630-635 | how a carry that has reached byte i goes on, which is the loop invariant of the in-place increment |
| Ipv4.CloneIP | backend/dhcp/service.go:639-643 | a fresh copy with the same bytes |
| Ipv4.NextIP | backend/dhcp/service.go:628-637 | the in-place loop returns the incremented address in a fresh array and leaves its argument alone |
| Ipv4.NextOfQuad | backend/dhcp/service.go:628-637 | on four bytes that is plus one modulo 2^32 |
| Dhcp.Used | backend/dhcp/service.go:557-566 | an address is skipped by the scan exactly when it is a static address, enabled or not, or has an unexpired lease |
| Dhcp.ScanIsExact | backend/dhcp/service.go:568-584 | the scan returns the first unused address in cyclic order, and none only if all addresses of the range are used |
| Dhcp.RangeSetSize | backend/dhcp/service.go:568 | the addresses of a cyclic range of n steps are n different ones, also when it wraps |
| Dhcp.RangeIsWithin | backend/dhcp/service.go:568-570 | the addresses the scan goes through are exactly those from start up to and including end, or around the end of the space if start is above end; none if start follows end |
| Dhcp.RangeCount | backend/dhcp/service.go:568-570 | how many these are |
| Dhcp.ScanFindsFirst | backend/dhcp/service.go:568-584 | the scan finds the first unused address of the range from start on, and none exactly when all of the range is used |
| Dhcp.PoolNotExhausted | backend/dhcp/service.go:568-584 | pigeonhole: the scan finds none exactly when the used addresses inside the range are as many as the range has |
| DhcpService.ScanStep | backend/dhcp/service.go:568-570 | one step of the loop on bytes is one step of the scan on numbers |
| DhcpService.LeaseService.FindStatic | backend/dhcp/service.go:527-532 | the first enabled static lease of the MAC |
| DhcpService.LeaseService.UsedIPs | backend/dhcp/service.go:557-566 | the set the two loops collect: all static addresses and those of unexpired rows |
| DhcpService.LeaseService.ScanRange | backend/dhcp/service.go:568-584 | the byte loop terminates and finds the first unused address of the range from start on, cyclically, up to and including end, and none only if all are used |
| DhcpService.LeaseService.FindInRange | backend/dhcp/service.go:550-584 | the same from the configured addresses, without changing them |
| DhcpService.LeaseService.AllocateIP | backend/dhcp/service.go:520-585 | result and new tables: static lease, else the existing row renewed, else the first unused address of the range stored; errors for a bad range, an exhausted one and a refused store; any access may fail |
| DhcpService.LeaseService.AllocateNewIP | backend/dhcp/service.go:550-584 | the scan and the store of what it finds, or the error |
| DhcpService.LeaseService.ConfirmLease | backend/dhcp/service.go:587-626 | result and new tables: a static lease is confirmed only for its own text, a row only for its own address, which is renewed; anything else is refused and changes nothing |
| DhcpService.LeaseService.HandleRequest | backend/dhcp/service.go:450-487 | the requested address is option 50, else the client address; 0.0.0.0 is refused before the tables are read |
| DhcpService.LeaseRepository.ListActiveLeases | backend/dhcp/repository.go:86-92 | every row, once each, by rising expiry, or none when the read fails |
| DhcpService.LeaseRepository.CreateOrUpdateActiveLease | backend/dhcp/repository.go:94-110 | upsert by MAC; refused, with nothing changed, when another MAC's row has the address |
| DhcpService.LeaseRepository.DeleteExpiredLeases | backend/dhcp/repository.go:112-119 | deletes exactly the rows whose expiry lies before now |
| DhcpPool.ChosenIsFree | backend/dhcp/service.go:557-570 | the scan never chooses an address that is static or live |
| DhcpPool.FreedAtExpiry | backend/dhcp/service.go:561-566 | in consistent tables the address of a row is in use until just before the end of its lease |
| DhcpPool.AllocateNewExactly | backend/dhcp/service.go:550-584 | without a lease in sight: an invalid range, a used up one, a refused store, or a new row on the first address of the range that is neither static nor live, each exactly when |
| DhcpPool.AllocateExactly | backend/dhcp/service.go:520-585 | whichever accesses fail, what a Discover answers and writes in terms of the tables as seen: the static address, else that of the row, which is renewed, else a new row; a failure changes nothing |
| DhcpRuns.AllocateSafe | backend/dhcp/service.go:520-585 | a Discover that renews a row, or reads the static table, or cannot write, or has no range, keeps addresses distinct and off the static ones, serves only what the tables then hold, and leaves other clients' rows alone |
| DhcpRuns.ConfirmSafe | backend/dhcp/service.go:587-626 | a Request moves no address, whatever accesses fail, and confirms only what the tables hold |
| DhcpRuns.StaticForIsFirst | backend/dhcp/service.go:527-532 | the static lease of a MAC is the first enabled one |
| DhcpRuns.ConfirmExactly | backend/dhcp/service.go:587-626 | whichever accesses fail, a Request is confirmed if and only if the tables as seen bind the MAC to just the requested address, any static lease in dotted form; the row then lasts a lease time if it can be written; anything else is refused with its error and changes nothing |
| DhcpRuns.RequestExactly | backend/dhcp/service.go:450-487 | the same by option 50 or by the client address, and never for 0.0.0.0 |
| DhcpRuns.StepSafe | backend/dhcp/service.go:428-487 | so does every step |
| DhcpRuns.NewRowShape | backend/dhcp/service.go:557-584 | a new row is the only change of its step, on an address that no other row and no static lease read has; a failure changes nothing |
| DhcpRuns.KeepsOffStaticsExactly | backend/dhcp/service.go:520-585 | Discovers keep all consistent tables consistent if and only if the static table is read, or the write fails, or the range is missing or empty |
| DhcpRuns.KeepsOwnRowExactly | backend/dhcp/service.go:534-585 | Discovers by a MAC with a row keep its address on all consistent tables if and only if the active table is read, or the write fails, or the range is missing or empty |
| DhcpRuns.TablesStayConsistent | backend/dhcp/service.go:520-626 | over every run with sweeps, under just that condition on Discovers: active addresses stay pairwise distinct and disjoint from the static ones; the next address served is held by its MAC, and by no other unless enabled static leases share it |
| DhcpRuns.StepBinds | backend/dhcp/service.go:520-626 | a step of such a run keeps what every MAC is bound to, and binds what it serves |
| DhcpRuns.GrantsStayBound | backend/dhcp/service.go:520-626 | so every address ever served stays bound to its MAC |
| DhcpRuns.NoSharedAddress | backend/dhcp/service.go:520-626 | over every run without deletions in which Discovers read both tables and Requests the static one, any writes failing: no MAC is served two addresses, and no two MACs one if enabled static leases are apart |
| DhcpRuns.NoSharedAddressExactly | backend/dhcp/service.go:520-626 | over all such runs from a consistent table, any two answers have equal MACs exactly when they have equal addresses, if and only if no two MACs have enabled static leases of one address |
| DhcpRuns.TwoSpellingsShareAddress | backend/dhcp/service.go:652-674 | two spellings of one address are different texts to the unique index, and both MACs are served it |
| DhcpRuns.OfferIsPermanent | backend/dhcp/service.go:450-621 | in such a run, at any later time, every Discover by a MAC once served returns that address, and a Request for it, by option 50 or client address, is confirmed if and only if it is not 0.0.0.0 and any static lease behind it is stored in dotted form |
| DhcpRuns.OfferedThenRefused | backend/dhcp/service.go:450-605 | a static lease in another spelling, or of 0.0.0.0, is offered, and every Request for it refused |
| DhcpRuns.FailedStaticReadServesStaticAddress | backend/dhcp/service.go:527-532 | a case outside that condition: with a failed static read, one address is held by two MACs |
| DhcpExclusivity.StepBacks | backend/dhcp/service.go:520-626 | a step whose failing accesses are harmless keeps every running grant backed to its end, whoever takes it, sweeps included |
| DhcpExclusivity.StepBacksNew | backend/dhcp/service.go:520-626 | and backs the grant it makes, to its end |
| DhcpExclusivity.GrantIsBackedExactly | backend/dhcp/service.go:520-626 | with both tables read, a grant is backed to its end if and only if the MAC has a static lease, or no row, or the write succeeds, or the row lasts as long anyway |
| DhcpExclusivity.NewGrantIsExclusive | backend/dhcp/service.go:520-585 | a new grant cannot collide with a backed one of another MAC |
| DhcpExclusivity.LeasesAreExclusive | backend/dhcp/service.go:520-626 | over every run with sweeps, an orderly clock, only harmless failures and enabled static leases apart: an address served to one MAC is not served to another before the first lease time has passed |
| DhcpExclusivity.LeasesAreExclusiveExactly | backend/dhcp/service.go:520-626 | that holds over all such runs if and only if no two MACs have enabled static leases of one address |
| DhcpExclusivity.GrantsAreHonoured | backend/dhcp/service.go:520-626 | over every such run, static leases apart or not, a grant is backed by the tables until it ends |
| DhcpExclusivity.FaultlessIsHarmless | backend/dhcp/service.go:520-626 | events without failing accesses are harmless, so the laws above hold for all runs of them |
| DhcpExclusivity.LostRenewalBreaksExclusivity | backend/dhcp/service.go:534-547 | a case with a harmful one: after a renewal whose write fails the address goes to a second MAC while the first still has it |
| DhcpExclusivity.OfferIsHonoured | backend/dhcp/service.go:450-621 | after any such run a MAC whose grant has not ended is offered the same address again, and a Request for it is confirmed if and only if it is not 0.0.0.0 and any static lease behind it is stored in dotted form |
| DhcpPool.NoAddressExactly | backend/dhcp/service.go:550-584 | no available IPs is answered exactly when every address from start to end is static or live, which is when as many of them are used as there are |
| DhcpPool.AllocationSucceedsExactly | backend/dhcp/service.go:550-584 | a MAC without a lease is served exactly when some address of the range is unused and the first such one is not on an expired row |
| DhcpPool.AllocationNeverStarves | backend/dhcp/service.go:520-585 | with no expired rows, a Discover is answered with an address if and only if the MAC has a lease or some address from start to end is neither static nor live |
| DhcpPool.ExpiredRowBlocksPool | backend/dhcp/service.go:561-576 | with an expired row on the first address allocation fails and changes nothing although the next address is free; sweeping the row cures it, and so does its renewal, after which the next address is given |
| DhcpPool.BlockedUntilRenewed | backend/dhcp/service.go:520-626 | from any state in which the first address the scan finds is on an expired row, over every run of other MACs' Discovers (which read both tables) and Requests, with any writes failing: neither table gains an address, and every Discover by a MAC without a lease is refused and changes nothing |
| DhcpRuns.BindingIsPermanent | backend/dhcp/service.go:450-621 | over every run without deletions, a MAC's row keeps its address whatever other clients do and whichever writes fail; without a static lease the MAC is always offered that address, and confirmed on it unless it is 0.0.0.0 |
| SlidingWindow.RecentOfRecent | backend/dns/server/ratelimit.go:76-82 | pruning stored attempts at a cut-off and again at a later one is pruning the whole log at the later one |
| SlidingWindow.RecentIsSuffix | backend/dns/server/ratelimit.go:76-82 | pruning an ordered log drops a prefix of it |
| SlidingWindow.AdmissionKeepsBound | backend/dns/server/ratelimit.go:84-91 | admitting only when fewer than max logged moments are after a cut-off not inside the window ending now keeps every window, anywhere, at max |
| SlidingWindow.SpanBound | backend/dns/server/ratelimit.go:84-91 | a log bounded on each window is bounded by max times k on any span that k windows cover |
| DnsRateLimit.Effective | backend/dns/server/ratelimit.go:24-50 | each value above 0 is used as configured, each other one becomes its own default of 120 queries, 10 s or 30 s; so at least 1 query and 1 second |
| DnsRateLimit.DnsLimiter.IsRateLimited | backend/dns/server/ratelimit.go:52-93 | answer and new table entry of one query: refused while blocked, blocked anew at a full window, else recorded; other clients' entries are untouched; nothing happens when disabled |
| DnsRateLimit.DecideKeepsInv | backend/dns/server/ratelimit.go:70-92 | one decision, with a reading behind the latest by at most the lag, keeps: at most maxQueries stored, all windows shortened by the lag bounded, the stored list being the log but for moments outside the latest window |
| DnsRateLimit.RunKeepsInv | backend/dns/server/ratelimit.go:52-93 | so does every run with readings out of order by at most the lag, for each client |
| DnsRateLimitExact.RunKeepsLone | backend/dns/server/ratelimit.go:52-93 | where one query is allowed, every run with readings in any order keeps each window bounded by one, and just the latest admission stored |
| DnsRateLimitExact.ClientsAreBounded | backend/dns/server/ratelimit.go:52-93 | in every run with readings out of order by at most the lag, each client has at most maxQueries admissions in any interval of a certain length, at most maxQueries * (D / length + 1) in any span D, and at most maxQueries stored attempts; the length is window - lag, and the whole window where one query is allowed |
| DnsRateLimitExact.BoundHoldsExactly | backend/dns/server/ratelimit.go:52-93 | over all runs with readings out of order by at most the lag, an interval of a given length has at most maxQueries admissions if and only if it is empty, or no longer than window - lag, or no longer than the window with one query allowed |
| DnsRateLimitExact.OneLateIsAdmitted | backend/dns/server/ratelimit.go:70-92 | the run that breaks it: with maxQueries above 1, that many queries at 0, one a window later and one with a reading before that by the lag are all admitted |
| DnsRateLimit.ClientsAreIndependent | backend/dns/server/ratelimit.go:65-92 | a client is answered as if its queries had come alone |
| DnsRateLimit.PenaltyKeepsEntry | backend/dns/server/ratelimit.go:70-75 | no query during a penalty changes the entry, so none extends it |
| DnsRateLimit.WaitIsHonest | backend/dns/server/ratelimit.go:70-75 | the wait told is at least 1 s, and above 1 s ends within the last second of the penalty, never after it |
| DnsRateLimit.PenaltyHolds | backend/dns/server/ratelimit.go:70-88 | after a refusal at t every query before t + blockDuration is refused, whatever came between, and is told an honest wait |
| DnsRateLimit.FirstWait | backend/dns/server/ratelimit.go:84-88 | the wait told at the refusal is the configured penalty in seconds, or 30 |
| DnsRateLimit.LateReadingIsRefused | backend/dns/server/ratelimit.go:70-75 | a reading before the end of a penalty is refused whatever queries came since, later readings included |
| DnsRateLimit.AdmittedByLog | backend/dns/server/ratelimit.go:70-92 | in every run, a query under no penalty and not before the readings ahead of it is admitted if and only if fewer than maxQueries of the logged ones are in its window |
| DnsRateLimit.RecoveryAfterPenalty | backend/dns/server/ratelimit.go:70-92 | in every run, with readings in any order, the first query once a penalty is over, not before the readings ahead of it, is admitted if and only if fewer than maxQueries of the logged ones are in its window; always if those readings are a window ago |
| LoginRateLimit.Truncate | backend/api/ratelimit/ratelimit.go:63-64 | the reported delay is the remaining time truncated toward zero to seconds, for either sign |
| LoginRateLimit.RateLimiter.CheckLimit | backend/api/ratelimit/ratelimit.go:41-80 | answer and new attempts of the identifier, other identifiers untouched; an empty valid list at the limit is a crash |
| LoginRateLimit.CheckKeepsInv | backend/api/ratelimit/ratelimit.go:49-79 | one check keeps: no crash, an ordered list of at most maxTries, every window of the admissions bounded |
| LoginRateLimit.RunKeepsInv | backend/api/ratelimit/ratelimit.go:49-79 | so does every run with an orderly clock |
| LoginRateLimit.LoginsAreBounded | backend/api/ratelimit/ratelimit.go:49-79 | at most maxTries admissions in any window of the configured minutes; the stored list is sorted and no longer than that |
| LoginRateLimit.AllowedExactly | backend/api/ratelimit/ratelimit.go:49-79 | in every orderly run a check is let through if and only if fewer than maxTries admissions are in the window then |
| LoginRateLimit.NoWindowAllows | backend/api/ratelimit/ratelimit.go:49-79 | with a window that is not positive every check is let through |
| LoginRateLimit.DisabledAllowsAll | backend/api/ratelimit/ratelimit.go:41-45 | a limiter that is switched off lets everything through and stores nothing |
| LoginRateLimit.RefusalLeavesFullList | backend/api/ratelimit/ratelimit.go:60-66 | at a refusal the stored list is full and all of it is inside the window |
| LoginRateLimit.RetryAfterIsHonest | backend/api/ratelimit/ratelimit.go:60-66 | after a refusal reporting r seconds a retry is admitted if and only if the oldest attempt has left the window: always from r + 1 seconds on, never within r seconds |
| LoginRateLimit.NoTriesCrash | backend/api/ratelimit/ratelimit.go:60-63 | an enabled limiter crashes in a run exactly when maxTries is not positive |
| Text.JoinOfSplit | backend/domain/matcher.go:91-93 | joining the labels of a name gives it back |
| Text.SplitOfJoin | backend/domain/matcher.go:91-93 | splitting joined parts gives them back when none has the separator |
| Text.TailIsSuffix | backend/domain/matcher.go:91-93 | every probed tail but the first is what follows a dot of the name |
| Text.SuffixIsTail | backend/domain/matcher.go:91-93 | and everything that follows a dot of the name is probed |
| Text.TailsShrink | backend/domain/matcher.go:91-93 | probing goes from longer to shorter tails |
| Text.SortIsCanonical | backend/blacklist/service.go:375-380 | sorting makes two lists equal exactly when they are the same multiset |
| Text.LessAt | backend/policy/service.go:196-207 | the first difference decides a string comparison |
| Text.LessExactly | backend/policy/service.go:196-207 | string order is that of the first difference, a proper prefix coming first |
| Text.LowerForgetsCase | backend/policy/service.go:188-190 | lower-cased texts are equal exactly when the texts differ in letter case only |
| Text.TrimSplits | backend/group/service.go:85-95 | what is trimmed is white space on either side, and none is left |
| Text.TrimOfPadded | backend/group/service.go:85-95 | and all white space around a text is trimmed |
| Text.SpacesExactly | backend/group/service.go:85-95 | which characters are white space |
| Text.PartSurvives | backend/api/key/service.go:83 | a part without the separator is still there after joining and splitting, whatever the others contain |
| Matching.ProbingFindsLongest | backend/domain/matcher.go:91-97 | hashing tails finds the longest stored wildcard base w with d == w or d ending in a dot and w, and nothing exactly when there is none |
| Matching.FirstRegexFinds | backend/domain/matcher.go:99-103 | the first listed expression that matches, if one does |
| Matching.FirstRegexIsFirst | backend/domain/matcher.go:99-103 | of several expressions that match the first one is found |
| Matching.LookupIsExact | backend/domain/matcher.go:83-106 | sound and complete: a name is matched exactly when it is an exact entry, a wildcard base is a label suffix of it, or an expression matches; exact hits win, then the longest wildcard, then an expression, and that pattern is reported |
| Matching.AddedMatchesExactly | backend/domain/matcher.go:24-38 | adding a pattern adds exactly the names the pattern matches, whatever the index held |
| Matching.AddKeepsStanding | backend/domain/matcher.go:24-38 | adding a new pattern makes the index stand for one pattern more |
| Matching.RemoveKeepsStanding | backend/domain/matcher.go:108-125 | removing a pattern makes it stand for exactly the others |
| Matching.RebuildStands | backend/domain/matcher.go:60-76 | an index built from distinct patterns stands for exactly those |
| Matching.StandingMatches | backend/domain/matcher.go:83-106 | an index matches a name exactly when one of the patterns it stands for does |
| Matching.BuiltIsWellFormed | backend/domain/matcher.go:24-38 | whatever is added, only expressions that compile are stored, and no name that is a wildcard or an expression counts as exact |
| Matching.RemoveKeepsWellFormed | backend/domain/matcher.go:108-125 | removals keep that |
| Matching.DumpRoundTrip | backend/domain/matcher.go:40-76 | dumping names, wildcards and expressions and adding them to a new index rebuilds an equal one |
| Matching.Matcher.Add | backend/domain/matcher.go:24-38 | new index: the pattern goes to the wildcards, the expressions or the exact names; an expression that does not compile is skipped |
| Matching.Matcher.AddBulk | backend/domain/matcher.go:60-76 | new index: the patterns added one after the other |
| Matching.Matcher.Remove | backend/domain/matcher.go:108-125 | new index: of several equal expressions only the first goes |
| Matching.Matcher.RemoveRegex | backend/domain/matcher.go:114-121 | the loop deletes the first expression with the source, and nothing when there is none |
| Matching.Matcher.MatchDetailed | backend/domain/matcher.go:83-106 | the probing loops return a match exactly when the plain definition has one, with the pattern the lookup reports |
| Matching.Matcher.GetWildcards | backend/domain/matcher.go:40-48 | the dump has each wildcard, and nothing else |
| Matching.Matcher.GetRegexes | backend/domain/matcher.go:50-58 | the dump has each expression in slashes, in order |
| DomainTests.ForwarderIsOneWildcard | backend/dns/server/handler.go:785-795 | the conditional forwarder test agrees, on every name, with an index holding the forwarder as its one wildcard |
| DomainTests.WildcardTestsDiffer | backend/blacklist/service.go:250-266 | for names and non-empty bases without a trailing dot, the block list's own test implies the index's, and they differ exactly at the base and at the base after a dot |
| DomainTests.PlainPatternsAreNames | backend/blacklist/service.go:250-266 | a pattern that is no wildcard matches just its own name |
| DomainTests.TrailingDotsAreIgnored | backend/blacklist/service.go:250-266 | both other tests give the same answer with a trailing dot on the name or on the pattern |
| DomainTests.FindResolution | backend/resolution/repository.go:43-62 | with rows of any value: the exact row if there is one, else that of the longest wildcard base after a dot of the name, never of the name itself, rows with an empty value being passed over; or, should the database layer narrow a query by the key of a record read before, the first such row if its value is not empty |
| DomainTests.SearchRows | backend/resolution/repository.go:43-62 | the loop of queries comes to the first row with a value, or, narrowed, to the first row if it has one |
| DomainTests.FirstRowIsRowFor | backend/resolution/repository.go:43-62 | asking for the name and then for one tail after the other finds the name's own row, or that of the longest base, or none exactly when there is none |
| DomainTests.FirstRowIsLongest | backend/resolution/repository.go:50-58 | the first row found while dropping labels is that of the longest base |
| Whitelist.ReloadAgrees | backend/whitelist/service.go:53-64 | a successful reload makes the index stand for the table, whatever it held before, in any order of the rows |
| Whitelist.StepAgrees | backend/whitelist/service.go:35-82 | every call, failing or not, keeps the index standing for all rows but those it has not seen |
| Whitelist.StaysUnseen | backend/whitelist/service.go:35-82 | a row stays unseen exactly until it is removed or the table is read again |
| Whitelist.StandsExactly | backend/whitelist/service.go:35-82 | an index that stands for some rows stands for all exactly when the others are expressions that do not compile |
| Whitelist.IndexAgreesExactly | backend/whitelist/service.go:17-82 | over every run from any start, the index agrees with the table if and only if every row unseen at the start was removed, or the table was read, or the row is an expression that does not compile |
| Whitelist.VerdictFollowsTable | backend/whitelist/service.go:17-91 | over every run from any start, a failed preload included, a name is whitelisted exactly when a row of the table matches it that the index has seen; all have been seen if none was missing at the start or once the table was read |
| Whitelist.FailedPreload | backend/whitelist/service.go:17-29 | the empty index of a failed preload is a start of such runs, with all rows unseen |
| Whitelist.WhitelistService.constructor | backend/whitelist/service.go:17-29 | the index starts with all rows, or with none when the first read fails |
| Whitelist.WhitelistService.AddDomain | backend/whitelist/service.go:35-51 | succeeds exactly for a new domain and a working database; table and index gain it together |
| Whitelist.WhitelistService.GetDomains | backend/whitelist/service.go:53-64 | a successful read replaces the index by one that has seen every row |
| Whitelist.WhitelistService.RemoveDomain | backend/whitelist/service.go:66-82 | succeeds exactly for a domain that is there; table and index lose it together |
| Whitelist.WhitelistService.IsWhitelistedDetailed | backend/whitelist/service.go:89-91 | whitelisted exactly when a row the index has seen matches, with the pattern |
| Groups.GetGroupIDsForClient | backend/group/service.go:290-312 | the groups of the address and of the MAC, each once; the default group, if there is one, exactly when there are none |
| Groups.SpellingsAreOneName | backend/group/service.go:93-95 | white space around a name, its letter case and one trailing dot do not matter |
| Groups.KeysExactly | backend/group/service.go:85-91 | assignments of one kind share a key exactly when their identifiers differ in outer white space and letter case only; an address never shares one with a MAC |
| Groups.AppendUnseen | backend/group/service.go:296-304 | appending without duplicates keeps the list duplicate-free and gives the union |
| Groups.ShouldBlockDetailed | backend/group/service.go:354-412 | blocked exactly when the name is not whitelisted, no known group allows it, and some group blocks it or some group uses the global policies and the name is globally blocked; which of these was the reason, and the text that says so, that of the last group in order with one |
| Groups.CheckGroups | backend/group/service.go:368-394 | the loop over the groups leaves the last reason to block, the last to allow, and whether a group uses the global policies |
| Groups.ReasonExists | backend/group/service.go:368-394 | a reason is left exactly when some group of the list has one |
| Groups.ReasonIsLast | backend/group/service.go:368-394 | it is that of the last such group |
| Groups.ReasonsTell | backend/group/service.go:368-394 | it names the group, the list, and the pattern reported for the name, or for the full name where only that matches |
| Groups.OrderIsIrrelevant | backend/group/service.go:354-412 | the verdict depends on the set of groups only |
| Groups.AllowNeverBlocks | backend/group/service.go:146-152 | one more allow pattern lets through exactly the names it matches, in either form, for clients of its group; so it never causes a block |
| Groups.BlockNeverAllows | backend/group/service.go:138-144 | one more block pattern blocks exactly the names it matches, for clients of its group, where nothing allows them; so it never causes a pass |
| Policies.TextOrderIsTimeOrder | backend/policy/service.go:196-207 | comparing zero-padded HH:MM texts compares the times |
| Policies.ActiveIsCyclicInterval | backend/policy/service.go:183-209 | with such times a schedule is active on its days exactly when (t - start) mod 1440 <= (end - start) mod 1440, past midnight too |
| Policies.TextReadsAsTime | backend/policy/service.go:195 | the text of a time is its hours and minutes in two digits each |
| Policies.ActiveAllDay | backend/policy/service.go:183-194 | without a schedule always active; without a start or an end all day, on any day if none is named, else on those whose text occurs in the list in any letter case |
| Policies.DayIsNamedExactly | backend/policy/service.go:188-192 | a day is named exactly when its text occurs somewhere in the list, in any letter case |
| Policies.ActiveBetweenTexts | backend/policy/service.go:194-207 | with other texts for start and end: active from start to end in string order, or outside the time between them if the end comes first |
| Policies.ReadingsAgreeAt | backend/policy/service.go:183-209 | at a moment, going by the current day and going by the day the window started on differ exactly after midnight in a window past it, when one of the two days is named and the other is not |
| Policies.ReadingsAgreeExactly | backend/policy/service.go:183-209 | the two agree at all moments if and only if the window is within a day, or the schedule names all seven days or none |
| Policies.HasAssignment | backend/policy/service.go:173-181 | the policy is among those assigned under the key |
| Policies.AppliesToClient | backend/policy/service.go:140-171 | assigned to the address, the MAC, one of the groups, or a network that contains the address, and only then |
| Policies.FindCategory | backend/policy/service.go:107-111 | the first category of the list that has the name, with the pattern that matches, if there is one |
| Policies.ActionsExactly | backend/policy/service.go:91-121 | block, nxdomain and null block and allow allows, in any letter case; nothing does both |
| Policies.FiresWithoutSchedule | backend/policy/service.go:81-90 | a policy without a schedule fires at any time, if it is enabled, applies, and covers the name |
| Policies.ShouldBlockDetailed | backend/policy/service.go:76-138 | the verdict is that of the first enabled, applicable, active policy that fires, with its flags, its action and the text of the reason, which names the first category that has the name; none exactly when none fires |
| Policies.IdlePoliciesDoNotMatter | backend/policy/service.go:76-138 | putting in or taking out a policy that does not fire, anywhere, changes nothing |
| Policies.DeciderIsNotOutranked | backend/policy/repository.go:37 | in the list as it is read, by falling priority, no policy that fires has a higher priority than the one that decides |
| DnsCache.MinTTLIsLeast | backend/dns/server/handler.go:839-846 | the TTL of an answer is that of one of its records and not above any of them |
| DnsCache.UpstreamTTL | backend/dns/server/handler.go:838-849 | the loop computes the least TTL of the answers; without answers the first authority record's, else 3600 |
| DnsCache.ChainIsOneExchange | backend/dns/server/handler.go:740-764 | a CNAME chain is never followed: the result is that of the first exchange, whatever later ones would bring |
| DnsCache.DnsServer.Resolve | backend/dns/server/handler.go:631-675 | answer and new cache: a fresh hit, else the local answer, else the upstream one, each stored; else a stale hit after a server failure; else the failure |
| DnsCache.DnsServer.AskCache | backend/dns/server/handler.go:638-655 | first part: a fresh hit, or what there is for the case of a failure; an entry past its stale phase goes |
| DnsCache.DnsServer.AskUpstream | backend/dns/server/handler.go:657-675 | second part: the local answer, else the upstream one, is stored; else the candidate serves after a server failure |
| DnsCache.DnsServer.CacheRecordWithSource | backend/dns/server/cache.go:95-125 | new cache: the records under the question's key, fresh for the lesser of their TTL and the configured time, then stale for as long but at least 30 s; nothing for no records or a disabled cache |
| DnsCache.DnsServer.GetCachedRecord | backend/dns/server/cache.go:21-46 | the records with the remaining whole seconds as TTL exactly while fresh; the stored records stay as they are |
| DnsCache.DnsServer.GetStaleRecord | backend/dns/server/cache.go:48-72 | the records with TTL 30 exactly while stale; an entry past that is deleted |
| DnsCache.DnsServer.RemoveCachedDomain | backend/dns/server/cache.go:74-89 | exactly the entries of the domain go, of every query type |
| DnsCacheRuns.KeysAreInjective | backend/dns/server/handler.go:632 | questions with one cache key are the same question, since no query type has a colon |
| DnsCacheRuns.StepKeepsInv | backend/dns/server/handler.go:631-675 | every step keeps each cached record equal to what the latest store under its key wrote, and every candidate and answer explained by the store that was the latest when the cache was asked |
| DnsCacheRuns.UndisturbedIsResolution | backend/dns/server/handler.go:631-675 | a resolution that starts and finishes with nothing in between answers and caches as the whole one does |
| DnsCacheRuns.LookUpIsExplained | backend/dns/server/handler.go:638-655 | what the cache has for a question, fresh or stale, comes from the latest store for that question |
| DnsCacheRuns.FinishKeepsInv | backend/dns/server/handler.go:657-675 | finishing a resolution after any other steps keeps all of this |
| DnsCacheRuns.RunKeepsInv | backend/dns/server/handler.go:631-675 | so does every run of overlapping resolutions, prefetches, removals and arbitrary drops |
| DnsCacheRuns.AnswersAreExplained | backend/dns/server/handler.go:631-675 | every answer of every run, however resolutions overlap: a cached one has the records of the store that was the latest for the same question when the cache was asked, fresh before its end with the rounded remaining TTL, or stale after it, before the stale end, with TTL 30 and only after a server failure without answers; any other is the reply waited for; a server failure is passed on only if there was no stale answer in reserve |
| DnsCacheRuns.CachedExactlyWhen | backend/dns/server/handler.go:631-675 | while the latest store for a question is in the cache, it is served fresh exactly when asked for before its fresh end, and kept for the case of a failure exactly when asked for after that and before its stale end |
| DnsCacheRuns.StoreKeepsLatest | backend/dns/server/cache.go:95-125 | a store makes its entry the latest one under its key and disturbs no other |
| DnsCacheRuns.FreshTTLIsHonoured | backend/dns/server/cache.go:21-46 | for every fresh answer of every run, record by record: the served TTL plus the time since the store it comes from passes neither that record's original TTL nor the configured time, if the least TTL of the store is above 0 |
| DnsCacheRuns.StoresHonourTTL | backend/dns/server/cache.go:21-46 | the same of every store of every run, at any moment at which it might be served |
| DnsCacheRuns.FreshAsLongAsAllowed | backend/dns/server/cache.go:95-125 | such a store stays fresh to the very end of the configured time or of the TTL of one of its records |
| DnsCacheRuns.FreshEndExactly | backend/dns/server/cache.go:95-110 | a TTL ends the fresh phase if it is given and not above the configured time, which else ends it |
| DnsCacheRuns.TTLHonouredExactly | backend/dns/server/cache.go:95-125 | that holds at every moment if and only if the least TTL is above 0 or the configured time is 0 |
| DnsCacheRuns.PhasesAreApart | backend/dns/server/cache.go:21-72 | fresh and stale exclude each other, the instant of expiry is neither, and the stale phase lasts at least 30 s |
| DnsCacheAnswers.ResolutionExactly | backend/dns/server/handler.go:631-675 | with a store for the question in the cache: before its fresh end its records with the time left, after that its records with TTL 30 if and only if the upstreams fail and the stale end is not reached, else the reply |
| DnsCacheAnswers.UncachedIsReply | backend/dns/server/handler.go:657-675 | without one the reply: the local answer, else what the exchange brought; without a cache nothing is stored |
| DnsCacheAnswers.LocalRowDecides | backend/dns/server/handler.go:678-710 | a local row with a usable address answers with it and the configured TTL; otherwise the upstreams are asked |
| DnsCacheAnswers.ReplyIsStored | backend/dns/server/handler.go:657-666 | an answer that was not cached is stored for its question and domain, under the least TTL of its records |
| DnsCacheAnswers.AskedAgain | backend/dns/server/handler.go:631-675 | so the next resolution of the question is answered from it, for as long as said above |
| DnsCacheAnswers.StoreWrites | backend/dns/server/cache.go:95-125 | what a store writes: records, times, key, domain, source, DNSSEC status |
| DnsCacheAnswers.StepOnKey | backend/dns/server/cache.go:48-125 | what each step does to the entry of a key: a store is there afterwards, an entry is gone exactly when dropped, its domain removed, or asked for after its stale end; else it stays |
| DnsCacheAnswers.StoredIsServed | backend/dns/server/handler.go:631-675 | over every run of overlapping resolutions: a store answers its question until another store, a drop, the removal of its domain, or a look at it after its stale end |
| DnsCacheAnswers.RemovalIsExact | backend/dns/server/cache.go:74-89 | a removal takes exactly the entries of the fully qualified domain, and none for an empty one |
| DnsCacheAnswers.RemovedIsNotServed | backend/dns/server/cache.go:74-89 | an answer stored for a name is not served once its domain is removed |
| Replication.CallKeepsInv | backend/cluster/replication.go:54-65 | a successful operation, a removal of a domain that only another source lists included, and its broadcast, queued or dropped, keep the invariant of order and conservation |
| Replication.TakeKeepsInv | backend/cluster/replication.go:67-87 | taking the next event once all pushes of the one before have ended keeps it |
| Replication.PushKeepsInv | backend/cluster/replication.go:89-109 | the end of a push, delivered or not, keeps it |
| Replication.RunKeepsInv | backend/cluster/replication.go:54-109 | so does every run, with steps interleaved in any way |
| Replication.DeliveryIsOrdered | backend/cluster/replication.go:54-87 | over every run the queue has at most 100 events; a peer has applied a subsequence of the primary's operations in their order; and each operation is applied, lost, dropped or under way |
| Replication.DroppedExactly | backend/cluster/replication.go:54-65 | an event is dropped exactly when the node is not primary or 100 are waiting |
| Replication.OfflineLosesExactly | backend/cluster/replication.go:67-87 | a taken event is lost at once for exactly the peers that are offline |
| Replication.PushLosesExactly | backend/cluster/replication.go:67-110 | a push is applied, or lost exactly when it fails or has no domain |
| Replication.SmoothRunLosesNothing | backend/cluster/replication.go:54-110 | a run in which nothing of this happens drops and loses nothing |
| Replication.LastDeliveredWins | backend/cluster/replication.go:54-87 | a peer agrees with the primary on a domain exactly when the last operation it applied there is of the kind of the last one made, so always when that one reached it; if it applied none there, exactly when what it had at the start is what the last one made; on an untouched domain exactly when they agreed at the start |
| Replication.LosslessPeerLags | backend/cluster/replication.go:54-87 | with nothing dropped or lost, a peer that started equal equals the primary after some prefix of its operations, and after all of them once the queue has drained |
| Replication.SmoothPeersAgree | backend/cluster/replication.go:54-110 | after such a run every peer that started equal equals the primary whenever nothing is under way |
| ReplicationService.ReplicationManager.Broadcast | backend/cluster/replication.go:54-65 | only a primary queues, and only below 100 events; otherwise nothing changes |
| ReplicationService.ReplicationManager.PushToPeers | backend/cluster/replication.go:79-85 | one round leaves each peer with the event applied exactly if it arrived there and has a domain |
| ReplicationService.ReplicationManager.ProcessNext | backend/cluster/replication.go:68-85 | one turn of the loop takes the first event and pushes it; broadcasts may come between turns |
| ReplicationService.ReplicationManager.ProcessQueue | backend/cluster/replication.go:67-87 | draining empties the queue and leaves each peer with its table replayed over the events that arrived and could be applied, in order |
| ReplicationService.DrainedStep | backend/cluster/replication.go:67-87 | draining one event more is one more round of pushes |
| ReplicationService.RoundPushes | backend/cluster/replication.go:68-85 | one turn is a take and the pushes of the step machine |
| ReplicationService.DrainingIsARun | backend/cluster/replication.go:67-87 | draining any part of the queue leaves queue and tables as a run of the machine does, so the laws of its runs hold for the objects |
| ReplicationService.BroadcastingIsAStep | backend/cluster/replication.go:54-65 | queueing, or dropping at 100 events or on a node not primary, is what the machine's step for the operation does |
| Replication.LastDecides | backend/blacklist/service.go:493-563 | after any operations a domain is in the table exactly when the last one on it was an addition |
| ReplicationService.Node.Replicate | backend/api/api_ha.go:266-294 | a peer refuses an event without a domain, an addition its own list has, a removal of a domain no list has, and any without access; otherwise it applies it, a removal on all lists |
| ReplicationService.Node.AddBlacklistedDomain | backend/blacklist/service.go:493-510 | creates the row exactly when the own list lacks it and the access succeeds |
| ReplicationService.Node.RemoveDomain | backend/blacklist/service.go:548-563 | deletes the domain from all lists, and succeeds exactly when one of them has it and the access succeeds |
| Migrations.AscendingIsSortedAndDistinct | backend/database/migrations.go:303-335 | ids that are equal to their sorted copy and distinct are strictly ascending, and only those |
| Migrations.CheckSteps | backend/database/migrations.go:308-321 | passes exactly when every step has an id and an Up and no id comes twice; else the error names the first step of which that fails, and what |
| Migrations.IsSorted | backend/database/migrations.go:322-332 | the comparison with a sorted copy |
| Migrations.ValidateMigrationPlan | backend/database/migrations.go:303-335 | passes exactly for a non-empty plan of steps with an Up and non-empty, strictly ascending ids; else the error says why not |
| Migrations.MigrationRunner.RunMigrations | backend/database/migrations.go:146-183 | result and new database: the steps not yet applied, in order, up to the first that fails or cannot be asked for, which leaves no trace; nothing for an invalid plan or when the table cannot be set up |
| Migrations.MigrationRunner.RollbackMigrations | backend/database/migrations.go:185-236 | result and new database: the given number of rows, or all, undone from the last; nothing for an invalid plan, a number that is not positive, or when the table cannot be set up or listed |
| Migrations.MigrationRunner.UndoRows | backend/database/migrations.go:209-233 | the undoing loop, up to the first row that is unknown or fails |
| Migrations.MigrationRunner.FindMigrationByID | backend/database/migrations.go:293-301 | the first step with the id |
| Migrations.MigrationRunner.DeleteRow | backend/database/migrations.go:224-227 | the table without the rows of that id |
| Migrations.WithoutIdExactly | backend/database/migrations.go:224-227 | all rows of the id go, and others stay as often as they were there |
| Migrations.RunAppliesMissing | backend/database/migrations.go:155-182 | whatever rows there are, a run without failures applies exactly the missing steps, in the order of the plan |
| Migrations.RollbackRemovesLast | backend/database/migrations.go:198-235 | whatever rows there are, a rollback without failures of known rows takes off exactly the last ones |
| Migrations.UnknownStopsRollback | backend/database/migrations.go:209-216 | a rollback stops at a row the plan does not know, which stays |
| MigrationRuns.RunIsAhead | backend/database/migrations.go:155-182 | from the first k steps a run leaves the first m: searching ids in the table amounts to counting steps up |
| MigrationRuns.AheadExtends | backend/database/migrations.go:155-182 | it ends with the whole plan, or at a step that fails or whose query fails, or where it was after a failing query for an applied step |
| MigrationRuns.AheadStopsExactly | backend/database/migrations.go:155-182 | it stops exactly at the first step that cannot be asked for, or is to be applied and fails, with that error |
| MigrationRuns.AheadFolds | backend/database/migrations.go:155-182 | with the schema that the Ups of those m steps lead to |
| MigrationRuns.RollbackIsBack | backend/database/migrations.go:198-235 | from the first k steps a rollback leaves the first m, undoing exactly those between: searching ids in the plan amounts to counting steps down |
| MigrationRuns.BackShrinks | backend/database/migrations.go:198-235 | it goes back the given number of steps, or stops just above a failing one |
| MigrationRuns.BackStopsExactly | backend/database/migrations.go:198-235 | it stops exactly at the first step, from the last one back, that fails |
| MigrationRuns.BackRestores | backend/database/migrations.go:198-235 | where each Down undoes its Up it goes back to the schema those m steps lead to |
| MigrationRuns.CallKeepsPrefix | backend/database/migrations.go:146-236 | every call, failing or not, keeps the applied ids a prefix of the plan |
| MigrationRuns.AppliedStaysPrefix | backend/database/migrations.go:146-236 | over every history of runs and rollbacks with any accesses failing, the applied ids are a prefix of the plan; and the schema is the fold of their Ups, if each Down undoes its Up |
| MigrationRuns.SchemaAgreesExactly | backend/database/migrations.go:146-236 | the schema follows the applied ids through every history if and only if each Down undoes its Up on the schemas of the plan |
| MigrationRuns.DisagreementShows | backend/database/migrations.go:198-235 | one particular history of a run and two rollbacks tells whether a Down undoes its Up |
| MigrationRuns.RunCompletes | backend/database/migrations.go:155-182 | a run without failures applies everything, and does nothing the second time |
| MigrationRuns.RollbackCompletes | backend/database/migrations.go:198-235 | a rollback without failures takes off exactly the given number of steps, or all |
| MigrationRuns.RollbackThenRunRestores | backend/database/migrations.go:146-236 | a rollback by any number and a run restore a fully migrated database |
| IndexMigrations.UndoesExactly | backend/database/migrations.go:23-137 | the Down of an index step undoes its Up exactly when none of its indexes was there to begin with |
| IndexMigrations.SchemaFollowsExactly | backend/database/migrations.go:23-137 | so the indexes follow the applied steps through every history exactly when the database starts without any of the plan's |
| IndexMigrations.ModelIndexesAreDropped | backend/database/migrations.go:98-113 | a database that starts with the indexes of static leases does not follow the applied steps of the plan in use |
| IndexMigrations.RollbackThenRunRestoresIndexes | backend/database/migrations.go:23-236 | a rollback by any number and a run restore a fully migrated database, whatever indexes it started with |
| IndexMigrations.ShippedPlanIsValid | backend/database/migrations.go:23-137 | the plan in use passes validation, and each of the ten indexes belongs to exactly one of its steps |
| ListUpdate.ChecksumIsExact | backend/blacklist/service.go:375-380 | with a collision-free hash, checksums are equal exactly for the same multiset of domains (non-empty, without line breaks) |
| ListUpdate.JoinIsInjective | backend/blacklist/service.go:375-380 | lists of such domains are equal exactly when their joined texts are |
| ListUpdate.Diff | backend/blacklist/service.go:319-342 | the entries of one list that are not in the other, in their order |
| ListUpdate.MinusIsDifference | backend/blacklist/service.go:319-342 | as sets that is the difference |
| ListUpdate.MinusCounts | backend/blacklist/service.go:319-342 | with repetitions: what is left is there as often as before |
| ListUpdate.MinusStaysSorted | backend/blacklist/service.go:319-342 | and in the same order |
| ListUpdate.CheckIfUpdateAvailable | backend/blacklist/service.go:304-347 | an error exactly when a list cannot be fetched, the remote one first; else an update is announced exactly when the checksums differ, with what is new and what is gone |
| ListUpdate.DiffIsComplete | backend/blacklist/service.go:319-346 | (stored minus removed) plus added is the remote set, added is new, removed was stored, and both are empty exactly for equal sets |
| ListUpdate.UpdateShowsExactly | backend/blacklist/service.go:304-347 | an announced update has both differences empty exactly when the lists have the same domains repeated differently, so never for lists without repetitions |
| ListUpdate.DomainOfExactly | backend/blacklist/service.go:444-461 | a line names its second field if the first is a hosts address and the second is not reserved, or its first if that is neither address nor comment; no line names 0.0.0.0 |
| ListUpdate.ExtractDomains | backend/blacklist/service.go:438-473 | every domain named by a line, and no other, once each, in the order in which they first come; an error exactly when reading fails or there is none |
| ApiKeys.ReadingsDiffer | backend/api/key/service.go:62-71 | the fallback's and the reload's reading of a row agree except for an empty scope asked of a key without scopes |
| ApiKeys.TextGrantsExactly | backend/api/key/service.go:62-71 | a text grants a scope exactly when that scope, or admin, is one of its comma-separated parts but for outer white space |
| ApiKeys.RawScopesAgreeExactly | backend/api/key/service.go:82-97 | the list cached at creation answers like the stored text, for every scope, if and only if it has the admin scope or all its scopes are trimmed and free of commas |
| ApiKeys.RebuiltHolds | backend/api/key/service.go:166-187 | a reload caches exactly the keys of the table, each with its row's name and parsed scopes |
| ApiKeys.StepKeeps | backend/api/key/service.go:35-192 | every call keeps each cached key in the table under its name, all keys cached once the table was read, and, for safe scopes, equal answers |
| ApiKeys.RunKeeps | backend/api/key/service.go:35-192 | so does every run |
| ApiKeys.AnswerFollowsTable | backend/api/key/service.go:35-60 | in such a state a check gives the table's answer on both paths |
| ApiKeys.VerifyFollowsTable | backend/api/key/service.go:35-192 | over every run with safe scopes, whichever accesses fail and whatever the clock says, a check for a non-empty scope grants exactly if the table does and can be asked, or the cache is fresh |
| ApiKeys.CreatedKeyAgreesExactly | backend/api/key/service.go:74-103 | while the cache stays fresh, a new key is answered as its row would be exactly when its scopes are safe |
| ApiKeys.DeletedKeyIsRefused | backend/api/key/service.go:106-125 | a deleted key is refused from then on, through every run in which it is not drawn again, whichever accesses fail |
| ApiKeys.KeyIsCreatedExactly | backend/api/key/service.go:74-103 | a new key is in the table after a creation exactly when that can write and the name is free, and nothing changes otherwise |
| ApiKeys.DeletionExactly | backend/api/key/service.go:106-125 | a deletion takes exactly the rows of the name, and one that fails changes nothing |
| ApiKeys.RefreshExactly | backend/api/key/service.go:151-192 | the table is read exactly when it was not within the last hour, or nothing is cached; then all of it is cached and the hour starts again; the only failure is a failing read then |
| ApiKeys.AnswersForAnHour | backend/api/key/service.go:35-192 | once a call has read the table, checks within the hour follow it even with the table out of reach |
| ApiKeys.AbsentKeyIsRefused | backend/api/key/service.go:35-60 | a key that is not in the table is refused on both paths |
| ApiKeys.KeyService.ParseScopes | backend/api/key/service.go:167-172 | no scopes for an empty text, else the trimmed parts |
| ApiKeys.KeyService.HasScope | backend/api/key/service.go:62-71 | granted exactly if a trimmed part is the required scope or admin |
| ApiKeys.KeyService.ReadTable | backend/api/key/service.go:161-187 | the rebuilt cache |
| ApiKeys.KeyService.RefreshCache | backend/api/key/service.go:151-192 | a fresh, non-empty cache is left alone; otherwise it is replaced and stamped, or left alone with an error when the read fails |
| ApiKeys.KeyService.VerifyKeyScope | backend/api/key/service.go:35-60 | answer and new cache: from the cache, or from the one row when the reload fails |
| ApiKeys.KeyService.CreateKey | backend/api/key/service.go:74-103 | refused for a taken name or key; else row and cache entry are added together |
| ApiKeys.KeyService.DropEntry | backend/api/key/service.go:111-118 | the search that stops at the first entry of the name removes all entries of that name |
| ApiKeys.KeyService.DeleteKey | backend/api/key/service.go:106-125 | row and cache entry go together, then the cache is refreshed if it is due; nothing when the deletion fails |

## Left out

- DHCPv6: it neither excludes static addresses nor checks requests, so the claims for IPv4 do not carry over.
- Sending DHCP refusals: a refusal is returned with an error and never sent; only the decision is modelled.
- Changes of the static lease table: it stays as it is over a run; creating a static lease on a live address is not prevented by the code.
- Host names in leases, and lease broadcasts to other nodes: they do not affect addresses.
- Upper-case MAC text in the tables: both tables hold lower-case text, as the code writes it.
- Clock readings inside one call of the DHCP service and the API key service: the call reads the clock once.
- DhcpExclusivity.LeasesAreExclusive: for runs with harmless failures only, a condition that suffices; a harmful one need not lead to a shared address.
- Fixed-width times: durations near the limits of 64 bits and the conversion of a remaining TTL to 32 bits are exact integers here; so is the floating-point form of Seconds().
- DnsRateLimit.RecoveryAfterPenalty: for a query no earlier than the readings before the refusal, as it is when the penalty is at least as long as the lag.
- Whitelist.IndexAgreesExactly: each call is one step; a call writes or reads the table before it changes the index, so a row added during a reload stays unseen, and overlapping calls on one domain may leave table and index apart. The backend reloads only while it creates the service.
- Whitelist.VerdictFollowsTable: each call is one step, in the same way.
- Replication.RunKeepsInv: a push is applied or never will be, and each service call is one step; the tables are the nodes' own lists, which additions write and removals clear along with the rows of all sources.
- DomainTests.FindResolution: the queries succeed; an error of the first is ignored by the code, one of a later query ends the search.
- ListUpdate.ExtractDomains: lines come split into fields, as strings.Fields does.
- Policies.AppliesToClient: containment of an address in a network is a parameter, as is the pattern of a category list that matches a name.
- Matching.LookupIsExact: compiling and matching expressions are functions of their source text, as parameters.
- Reloading the group and policy caches: the verdicts are for any cache contents.
- The block list index against its tables: a custom removal drops names that other sources still list, removing a source leaves the index alone, and repeated expressions are removed once.
- Bulk loading of lists, and replication of groups and leases.
- The prefetch loop: the cache runs have arbitrary drops and prefetch stores in its place.
- Leader election, virtual addresses and the DNS proxy.
- SQL, HTTP, TLS, the DNS wire format, DNSSEC validation, logging, metrics, notifications, backups and the updater.
- Hashing, randomness, JWT and passwords: the hash is a parameter, drawn keys are inputs.
- Unicode: letter case and white space are those of ASCII.
- The configuration, fixed over a run.
- The dashboard.
