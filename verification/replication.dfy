/**
 Blacklist replication: the primary's operations, the bounded queue of their events, and
 the pushes to the peers, as a machine whose steps interleave freely.
 */
module Replication {
  import opened Wrappers

  datatype Kind = BlacklistAdd | BlacklistRemove

  /** A successful operation, which is also the event that is broadcast for it. */
  datatype Op = Op(kind: Kind, domain: string)

  type Peer = string

  const QUEUE_SIZE := 100

  /** A peer's own list, and the numbers of the operations it applied and of those that never reached it. */
  datatype PeerState = PeerState(table: set<string>, applied: seq<nat>, lost: set<nat>)

  /**
   Operations are numbered by their place in ops, the history of the primary. The queue and
   the event being pushed hold such numbers; pending are the peers whose push is under way;
   dropped are the events that found the queue full or the node not primary.
   */
  datatype State = State(
    isPrimary: bool,
    table: set<string>,
    ops: seq<Op>,
    queue: seq<nat>,
    current: Option<nat>,
    pending: set<Peer>,
    dropped: set<nat>,
    peers: map<Peer, PeerState>)

  /** The own list after an operation; one that is already in effect there changes nothing. */
  function Apply(table: set<string>, op: Op): set<string> {
    match op.kind
    case BlacklistAdd => table + {op.domain}
    case BlacklistRemove => table - {op.domain}
  }

  function Replay(table: set<string>, ops: seq<Op>): set<string> {
    if ops == [] then table
    else Apply(Replay(table, ops[..|ops| - 1]), ops[|ops| - 1])
  }

  // ---------- steps ----------

  /**
   Call: an operation at the primary, which succeeds or not. It may fail for want of access;
   an addition also fails when the node's own list has the domain, and a removal when no list
   has it. A removal takes the domain off every list, so it may succeed although the node's
   own list lacks the domain; the tables here are the own lists. Take: the next event is taken
   from the queue and pushed to the peers online then. Push: one push ends, delivered or not.
   */
  datatype Action =
    | Call(op: Op, ok: bool)
    | Take(online: set<Peer>)
    | Push(peer: Peer, delivered: bool)

  /** Broadcasting the latest operation: queued, or dropped. */
  function Broadcast(s: State, number: nat): State {
    if s.isPrimary && |s.queue| < QUEUE_SIZE then s.(queue := s.queue + [number])
    else s.(dropped := s.dropped + {number})
  }

  /** A peer refuses an event without a domain. */
  function Receive(p: PeerState, ops: seq<Op>, number: nat, delivered: bool): PeerState
    requires number < |ops|
  {
    if delivered && ops[number].domain != "" then
      p.(table := Apply(p.table, ops[number]), applied := p.applied + [number])
    else
      p.(lost := p.lost + {number})
  }

  /** A step that is not possible in a state changes nothing. */
  function Step(s: State, a: Action): State {
    match a
    case Call(op, ok) =>
      if ok then
        Broadcast(s.(table := Apply(s.table, op), ops := s.ops + [op]), |s.ops|)
      else s
    case Take(online) =>
      if s.pending == {} && s.queue != [] then
        var number := s.queue[0];
        s.(queue := s.queue[1..],
           current := Some(number),
           pending := s.peers.Keys * online,
           peers := map p | p in s.peers ::
             if p in online then s.peers[p] else s.peers[p].(lost := s.peers[p].lost + {number}))
      else s
    case Push(p, delivered) =>
      if p in s.pending && p in s.peers && s.current.Some? && s.current.value < |s.ops| then
        s.(pending := s.pending - {p},
           peers := s.peers[p := Receive(s.peers[p], s.ops, s.current.value, delivered)])
      else s
  }

  function Run(s: State, actions: seq<Action>): State {
    if actions == [] then s
    else Step(Run(s, actions[..|actions| - 1]), actions[|actions| - 1])
  }

  /** Before the first operation. */
  predicate Initial(s: State) {
    && s.ops == [] && s.queue == [] && s.current == None && s.pending == {} && s.dropped == {}
    && forall p | p in s.peers :: s.peers[p].applied == [] && s.peers[p].lost == {}
  }

  // ---------- what every step keeps ----------

  ghost predicate Increasing(ns: seq<nat>) {
    forall i, j :: 0 <= i < j < |ns| ==> ns[i] < ns[j]
  }

  /** The operation is still on its way to the peer. */
  predicate Underway(s: State, p: Peer, n: nat) {
    n in s.queue || (p in s.pending && s.current == Some(n))
  }

  lemma {:induction false} IncreasingAppend(ns: seq<nat>, n: nat)
    requires Increasing(ns) && forall i :: 0 <= i < |ns| ==> ns[i] < n
    ensures Increasing(ns + [n])
  {
  }

  /** The queue is in order, and behind the event being pushed. */
  ghost predicate QueueInOrder(s: State) {
    && Increasing(s.queue) && |s.queue| <= QUEUE_SIZE
    && (forall i :: 0 <= i < |s.queue| ==> s.queue[i] < |s.ops|)
    && (s.current.Some? ==>
          s.current.value < |s.ops| && forall i :: 0 <= i < |s.queue| ==> s.current.value < s.queue[i])
    && (s.pending != {} ==> s.current.Some?)
    && s.pending <= s.peers.Keys
  }

  /** What a peer applied came in order, and not after the event being pushed. */
  ghost predicate PeerInOrder(s: State, p: Peer)
    requires p in s.peers
  {
    var applied := s.peers[p].applied;
    && Increasing(applied)
    && (forall i :: 0 <= i < |applied| ==>
          && applied[i] < |s.ops| && s.ops[applied[i]].domain != ""
          && s.current.Some? && applied[i] <= s.current.value
          && (p in s.pending ==> applied[i] < s.current.value))
  }

  /** So it came before everything under way. */
  lemma {:induction false} AppliedBeforeUnderway(s: State, p: Peer)
    requires QueueInOrder(s) && p in s.peers && PeerInOrder(s, p)
    ensures forall i, n :: 0 <= i < |s.peers[p].applied| && Underway(s, p, n) ==> s.peers[p].applied[i] < n
  {
  }

  /** Every operation is, for every peer, applied, lost, dropped or under way. */
  ghost predicate Conserved(s: State, p: Peer)
    requires p in s.peers
  {
    forall n: nat :: n < |s.ops| ==>
      n in s.peers[p].applied || n in s.peers[p].lost || n in s.dropped || Underway(s, p, n)
  }

  /** The operations with the given numbers. */
  function Select(ops: seq<Op>, numbers: seq<nat>): (r: seq<Op>)
    ensures |r| == |numbers|
  {
    seq(|numbers|, i requires 0 <= i < |numbers| =>
      if numbers[i] < |ops| then ops[numbers[i]] else Op(BlacklistAdd, ""))
  }

  ghost predicate Inv(s0: State, s: State) {
    && s.peers.Keys == s0.peers.Keys && s.isPrimary == s0.isPrimary
    && s.table == Replay(s0.table, s.ops)
    && QueueInOrder(s)
    && (forall p :: p in s.peers ==>
          && PeerInOrder(s, p) && Conserved(s, p)
          && s.peers[p].table == Replay(s0.peers[p].table, Select(s.ops, s.peers[p].applied)))
  }

  lemma {:induction false} ReplayOfAppend(table: set<string>, ops: seq<Op>, op: Op)
    ensures Replay(table, ops + [op]) == Apply(Replay(table, ops), op)
  {
    assert (ops + [op])[..|ops|] == ops;
  }

  lemma {:induction false} SelectOfMore(ops: seq<Op>, op: Op, numbers: seq<nat>)
    requires forall i :: 0 <= i < |numbers| ==> numbers[i] < |ops|
    ensures Select(ops + [op], numbers) == Select(ops, numbers)
  {
  }

  lemma {:induction false} CallKeepsPeer(s: State, op: Op, p: Peer)
    requires QueueInOrder(s)
    requires p in s.peers && PeerInOrder(s, p) && Conserved(s, p)
    ensures var t := Step(s, Call(op, true));
            && PeerInOrder(t, p) && Conserved(t, p)
            && Select(t.ops, t.peers[p].applied) == Select(s.ops, s.peers[p].applied)
  {
    var t := Step(s, Call(op, true));
    forall n: nat | n < |t.ops|
      ensures n in t.peers[p].applied || n in t.peers[p].lost || n in t.dropped || Underway(t, p, n)
    {
      assert n < |s.ops| && Underway(s, p, n) ==> Underway(t, p, n);
    }
    SelectOfMore(s.ops, op, s.peers[p].applied);
  }

  lemma {:induction false} CallKeepsInv(s0: State, s: State, op: Op)
    requires Inv(s0, s)
    ensures Inv(s0, Step(s, Call(op, true)))
  {
    ReplayOfAppend(s0.table, s.ops, op);
    forall p | p in s.peers
      ensures var t := Step(s, Call(op, true));
              && PeerInOrder(t, p) && Conserved(t, p)
              && Select(t.ops, t.peers[p].applied) == Select(s.ops, s.peers[p].applied)
    {
      CallKeepsPeer(s, op, p);
    }
  }

  lemma {:induction false} TakeKeepsPeer(s: State, online: set<Peer>, p: Peer)
    requires QueueInOrder(s) && p in s.peers && PeerInOrder(s, p) && Conserved(s, p)
    ensures var t := Step(s, Take(online)); p in t.peers && PeerInOrder(t, p) && Conserved(t, p)
  {
    var t := Step(s, Take(online));
    if s.pending == {} && s.queue != [] {
      assert s.queue == [s.queue[0]] + t.queue;
      assert forall n :: Underway(s, p, n) ==> n == s.queue[0] || n in t.queue;
    }
  }

  lemma {:induction false} TakeKeepsInv(s0: State, s: State, online: set<Peer>)
    requires Inv(s0, s)
    ensures Inv(s0, Step(s, Take(online)))
  {
    forall p | p in s.peers
      ensures var t := Step(s, Take(online)); p in t.peers && PeerInOrder(t, p) && Conserved(t, p)
    {
      TakeKeepsPeer(s, online, p);
    }
  }

  lemma {:induction false} ReceiveKeepsOrder(s: State, p: Peer, delivered: bool)
    requires QueueInOrder(s) && p in s.pending && s.current.Some? && PeerInOrder(s, p)
    ensures PeerInOrder(Step(s, Push(p, delivered)), p)
  {
    IncreasingAppend(s.peers[p].applied, s.current.value);
  }

  lemma {:induction false} ReceiveReplays(table: set<string>, p: PeerState, ops: seq<Op>, number: nat, delivered: bool)
    requires number < |ops| && p.table == Replay(table, Select(ops, p.applied))
    ensures var q := Receive(p, ops, number, delivered); q.table == Replay(table, Select(ops, q.applied))
  {
    if delivered && ops[number].domain != "" {
      assert Select(ops, p.applied + [number]) == Select(ops, p.applied) + [ops[number]];
      ReplayOfAppend(table, Select(ops, p.applied), ops[number]);
    }
  }

  lemma {:induction false} PushKeepsOthers(s: State, p: Peer, delivered: bool, q: Peer)
    requires QueueInOrder(s) && p in s.pending && s.current.Some? && q in s.peers && q != p
    requires PeerInOrder(s, q) && Conserved(s, q)
    ensures var t := Step(s, Push(p, delivered)); q in t.peers && PeerInOrder(t, q) && Conserved(t, q)
  {
    var t := Step(s, Push(p, delivered));
    assert forall n :: Underway(s, q, n) ==> Underway(t, q, n);
  }

  lemma {:induction false} PushKeepsInv(s0: State, s: State, p: Peer, delivered: bool)
    requires Inv(s0, s)
    ensures Inv(s0, Step(s, Push(p, delivered)))
  {
    var t := Step(s, Push(p, delivered));
    if p in s.pending && s.current.Some? {
      ReceiveKeepsOrder(s, p, delivered);
      ReceiveReplays(s0.peers[p].table, s.peers[p], s.ops, s.current.value, delivered);
      forall q | q in t.peers && q != p ensures PeerInOrder(t, q) && Conserved(t, q) {
        PushKeepsOthers(s, p, delivered, q);
      }
    }
  }

  lemma {:induction false} RunKeepsInv(s0: State, actions: seq<Action>)
    requires Initial(s0)
    ensures Inv(s0, Run(s0, actions))
  {
    if actions == [] {
      forall p | p in s0.peers ensures Select(s0.ops, s0.peers[p].applied) == [] {}
    } else {
      var n := |actions| - 1;
      RunKeepsInv(s0, actions[..n]);
      var s := Run(s0, actions[..n]);
      match actions[n]
      case Call(op, ok) =>
        if ok {
          CallKeepsInv(s0, s, op);
        }
      case Take(online) => TakeKeepsInv(s0, s, online);
      case Push(p, delivered) => PushKeepsInv(s0, s, p, delivered);
    }
  }

  /**
   First in, first out, and nothing unaccounted for: over every run a peer applies a
   subsequence of the primary's operations in their order, and each operation is applied,
   lost, dropped or still under way for it; the queue never holds more than 100.
   */
  lemma {:induction false} DeliveryIsOrdered(s0: State, actions: seq<Action>, p: Peer)
    requires Initial(s0) && p in s0.peers
    ensures var s := Run(s0, actions);
            && |s.queue| <= 100 && p in s.peers
            && Increasing(s.peers[p].applied) && Conserved(s, p)
            && s.table == Replay(s0.table, s.ops)
            && s.peers[p].table == Replay(s0.peers[p].table, Select(s.ops, s.peers[p].applied))
  {
    RunKeepsInv(s0, actions);
  }

  /** When an operation is dropped: when the node is not primary, or 100 events are waiting. */
  lemma {:induction false} DroppedExactly(s: State, op: Op)
    requires |s.ops| !in s.dropped
    ensures var t := Step(s, Call(op, true));
            && (|s.ops| in t.dropped <==> !s.isPrimary || |s.queue| >= 100)
            && (|s.ops| in t.dropped ==> t.queue == s.queue)
            && (|s.ops| !in t.dropped ==> t.queue == s.queue + [|s.ops|] && t.dropped == s.dropped)
            && t.peers == s.peers && t.ops == s.ops + [op]
  {
  }

  /** When an event is lost for a peer: when it is offline as the event is taken. */
  lemma {:induction false} OfflineLosesExactly(s: State, online: set<Peer>, p: Peer)
    requires s.pending == {} && s.queue != [] && p in s.peers && s.queue[0] !in s.peers[p].lost
    ensures var t := Step(s, Take(online));
            && p in t.peers && t.dropped == s.dropped
            && (s.queue[0] in t.peers[p].lost <==> p !in online)
            && (p in t.pending <==> p in online)
            && (p in online ==> t.peers[p] == s.peers[p])
            && t.peers[p].applied == s.peers[p].applied && t.peers[p].table == s.peers[p].table
  {
  }

  /** Or when its push fails, or has no domain; otherwise the peer applies it. */
  lemma {:induction false} PushLosesExactly(s: State, p: Peer, delivered: bool)
    requires QueueInOrder(s) && p in s.pending && s.current.value !in s.peers[p].lost
    ensures var t := Step(s, Push(p, delivered));
            var arrives := delivered && s.ops[s.current.value].domain != "";
            && p in t.peers && t.dropped == s.dropped
            && (s.current.value in t.peers[p].lost <==> !arrives)
            && t.peers[p].applied == s.peers[p].applied + (if arrives then [s.current.value] else [])
            && t.peers[p].table == (if arrives then Apply(s.peers[p].table, s.ops[s.current.value])
                                    else s.peers[p].table)
            && (arrives ==> t.peers[p].lost == s.peers[p].lost)
  {
  }

  /** Nothing goes wrong in a step: no event is dropped, no peer is offline, no push fails, every domain is one. */
  ghost predicate Smooth(s: State, a: Action) {
    match a
    case Call(op, ok) => op.domain != "" && |s.queue| < 100
    case Take(online) => s.peers.Keys <= online
    case Push(_, delivered) => delivered
  }

  ghost predicate SmoothRun(s0: State, actions: seq<Action>) {
    s0.isPrimary && forall i :: 0 <= i < |actions| ==> Smooth(Run(s0, actions[..i]), actions[i])
  }

  /** Nothing was dropped, nothing lost, and all operations have a domain. */
  ghost predicate NothingLost(s: State) {
    && s.dropped == {} && (forall p :: p in s.peers ==> s.peers[p].lost == {})
    && forall i :: 0 <= i < |s.ops| ==> s.ops[i].domain != ""
  }

  lemma {:induction false} SmoothStep(s: State, a: Action)
    requires QueueInOrder(s) && NothingLost(s) && s.isPrimary && Smooth(s, a)
    ensures NothingLost(Step(s, a))
  {
  }

  /** Where nothing goes wrong, nothing is dropped or lost. */
  lemma {:induction false} SmoothRunLosesNothing(s0: State, actions: seq<Action>)
    requires Initial(s0) && SmoothRun(s0, actions)
    ensures NothingLost(Run(s0, actions))
  {
    if actions != [] {
      var n := |actions| - 1;
      forall i | 0 <= i < n ensures Smooth(Run(s0, actions[..n][..i]), actions[..n][i]) {
        assert actions[..n][..i] == actions[..i];
      }
      SmoothRunLosesNothing(s0, actions[..n]);
      RunKeepsInv(s0, actions[..n]);
      SmoothStep(Run(s0, actions[..n]), actions[n]);
    }
  }

  // ---------- agreement ----------

  /** Operation j is the last one on a domain. */
  ghost predicate LastOn(ops: seq<Op>, d: string, j: nat) {
    && j < |ops| && ops[j].domain == d
    && forall i :: j < i < |ops| ==> ops[i].domain != d
  }

  /** The last operation on a domain decides whether it is in the table. */
  lemma {:induction false} LastDecides(table: set<string>, ops: seq<Op>, d: string, j: nat)
    requires LastOn(ops, d, j)
    ensures d in Replay(table, ops) <==> ops[j].kind.BlacklistAdd?
  {
    var n := |ops| - 1;
    if j < n {
      assert ops[n].domain != d;
      LastDecides(table, ops[..n], d, j);
    }
  }

  lemma {:induction false} UntouchedStays(table: set<string>, ops: seq<Op>, d: string)
    requires Untouched(ops, d)
    ensures d in Replay(table, ops) <==> d in table
  {
    if ops != [] {
      UntouchedStays(table, ops[..|ops| - 1], d);
    }
  }

  /** The peer agrees with the primary on whether the domain is listed. */
  predicate Agree(s: State, p: Peer, d: string)
    requires p in s.peers
  {
    d in s.peers[p].table <==> d in s.table
  }

  predicate Untouched(ops: seq<Op>, d: string) {
    forall i | 0 <= i < |ops| :: ops[i].domain != d
  }

  /** The last operation on a domain, if it was applied, is the last one applied there. */
  lemma {:induction false} LastApplied(ops: seq<Op>, applied: seq<nat>, d: string, j: nat) returns (k: nat)
    requires Increasing(applied) && LastOn(ops, d, j) && j in applied
    requires forall i :: 0 <= i < |applied| ==> applied[i] < |ops|
    ensures LastOn(Select(ops, applied), d, k) && Select(ops, applied)[k] == ops[j]
  {
    k :| k < |applied| && applied[k] == j;
  }

  /** What some operations make of a domain, compared with what others make of it. */
  lemma {:induction false} LastKindsDecide(all: set<string>, some: set<string>, ops: seq<Op>, mine: seq<Op>, d: string,
                                           j: nat)
    requires LastOn(ops, d, j)
    ensures var agree := d in Replay(some, mine) <==> d in Replay(all, ops);
            && (forall k: nat :: LastOn(mine, d, k) ==> (agree <==> mine[k].kind == ops[j].kind))
            && (Untouched(mine, d) ==> (agree <==> (d in some <==> ops[j].kind.BlacklistAdd?)))
  {
    LastDecides(all, ops, d, j);
    forall k: nat | LastOn(mine, d, k) ensures d in Replay(some, mine) <==> mine[k].kind.BlacklistAdd? {
      LastDecides(some, mine, d, k);
    }
    if Untouched(mine, d) {
      UntouchedStays(some, mine, d);
    }
  }

  /**
   The last delivered operation wins: in every run, whatever was dropped or lost, a peer
   agrees with the primary on a domain exactly when the last operation it applied there is of
   the kind of the last one made, so always when that one reached it; if it applied none
   there, when what it had at the start is what the last operation made, or what the primary
   had if there was none.
   */
  lemma {:induction false} LastDeliveredWins(s0: State, actions: seq<Action>, p: Peer, d: string, j: nat)
    requires Initial(s0) && p in s0.peers
    ensures var s := Run(s0, actions);
            && p in s.peers
            && var mine := Select(s.ops, s.peers[p].applied);
               && (LastOn(s.ops, d, j) && j in s.peers[p].applied ==> Agree(s, p, d))
               && (forall k: nat :: LastOn(s.ops, d, j) && LastOn(mine, d, k) ==>
                     (Agree(s, p, d) <==> mine[k].kind == s.ops[j].kind))
               && (LastOn(s.ops, d, j) && Untouched(mine, d) ==>
                     (Agree(s, p, d) <==> (d in s0.peers[p].table <==> s.ops[j].kind.BlacklistAdd?)))
               && (Untouched(s.ops, d) ==> (Agree(s, p, d) <==> Agree(s0, p, d)))
  {
    RunKeepsInv(s0, actions);
    var s := Run(s0, actions);
    assert PeerInOrder(s, p);
    var applied := s.peers[p].applied;
    var mine := Select(s.ops, applied);
    if LastOn(s.ops, d, j) {
      LastKindsDecide(s0.table, s0.peers[p].table, s.ops, mine, d, j);
      if j in applied {
        var k := LastApplied(s.ops, applied, d, j);
      }
    } else if Untouched(s.ops, d) {
      UntouchedStays(s0.table, s.ops, d);
      UntouchedStays(s0.peers[p].table, mine, d);
    }
  }

  /** An increasing list of numbers that is closed downward counts 0, 1, 2, ... */
  lemma {:induction false} ClosedListCounts(ns: seq<nat>, i: nat)
    requires Increasing(ns) && i < |ns|
    requires forall m: nat :: m < ns[|ns| - 1] ==> m in ns
    ensures forall k :: 0 <= k <= i ==> ns[k] == k
  {
    if i > 0 {
      ClosedListCounts(ns, i - 1);
      assert ns[i - 1] < ns[i];
    }
    if i < ns[i] {
      assert ns[i] <= ns[|ns| - 1];
      assert i in ns;
      var j :| 0 <= j < |ns| && ns[j] == i;
      assert j < i ==> ns[j] == j;
    }
  }

  /**
   With nothing dropped and nothing lost for it, a peer that started equal always equals the
   primary as it was after some number of its operations; after all of them once nothing is
   under way.
   */
  lemma {:induction false} LosslessPeerLags(s0: State, actions: seq<Action>, p: Peer) returns (k: nat)
    requires Initial(s0) && p in s0.peers && s0.peers[p].table == s0.table
    requires var s := Run(s0, actions); p in s.peers && s.dropped == {} && s.peers[p].lost == {}
    ensures var s := Run(s0, actions);
            && k <= |s.ops|
            && s.peers[p].table == Replay(s0.table, s.ops[..k])
            && (s.queue == [] && p !in s.pending ==> k == |s.ops| && s.peers[p].table == s.table)
  {
    RunKeepsInv(s0, actions);
    var s := Run(s0, actions);
    assert PeerInOrder(s, p) && Conserved(s, p);
    var applied := s.peers[p].applied;
    k := |applied|;
    if k > 0 {
      AppliedBeforeUnderway(s, p);
      forall m: nat | m < applied[k - 1] ensures m in applied {
        assert !Underway(s, p, m);
      }
      ClosedListCounts(applied, k - 1);
    }
    assert Select(s.ops, applied) == s.ops[..k];
    if s.queue == [] && p !in s.pending {
      assert forall n: nat :: n < |s.ops| ==> n in applied;
      assert k !in applied;
      assert s.ops[..k] == s.ops;
    }
  }

  /** So every peer that started equal is equal to the primary whenever nothing is under way. */
  lemma {:induction false} SmoothPeersAgree(s0: State, actions: seq<Action>, p: Peer)
    requires Initial(s0) && SmoothRun(s0, actions) && p in s0.peers && s0.peers[p].table == s0.table
    ensures var s := Run(s0, actions);
            p in s.peers && (s.queue == [] && s.pending == {} ==> s.peers[p].table == s.table)
  {
    RunKeepsInv(s0, actions);
    SmoothRunLosesNothing(s0, actions);
    var k := LosslessPeerLags(s0, actions, p);
  }
}
