/** The objects that replicate the blacklist, and the runs of the step machine they carry out. */
module ReplicationService {
  import opened Wrappers
  import opened Collections
  import opened Replication

  /** A node's blacklist rows, as the primary's peers see and change them: its own list, and those of its sources. */
  class Node {
    var table: set<string>
    var fromSources: set<string>

    constructor (table: set<string>, fromSources: set<string>)
      ensures this.table == table && this.fromSources == fromSources
    {
      this.table, this.fromSources := table, fromSources;
    }

    /** The row is created, unless the own list has it. */
    method AddBlacklistedDomain(domain: string, access: bool) returns (ok: bool)
      modifies this`table
      ensures ok <==> access && domain !in old(table)
      ensures table == if ok then old(table) + {domain} else old(table)
    {
      ok := access && domain !in table;
      if ok {
        table := table + {domain};
      }
    }

    /** The rows of all lists are deleted; there must be one. */
    method RemoveDomain(domain: string, access: bool) returns (ok: bool)
      modifies this`table, this`fromSources
      ensures ok <==> access && (domain in old(table) || domain in old(fromSources))
      ensures table == if ok then old(table) - {domain} else old(table)
      ensures fromSources == if ok then old(fromSources) - {domain} else old(fromSources)
    {
      ok := access && (domain in table || domain in fromSources);
      if ok {
        table, fromSources := table - {domain}, fromSources - {domain};
      }
    }

    /** The replication handler: an error without a domain, or when the operation is refused. */
    method Replicate(op: Op, access: bool) returns (ok: bool)
      modifies this
      ensures table == if op.domain == "" || !access then old(table) else Apply(old(table), op)
      ensures fromSources ==
              if op.domain != "" && access && op.kind.BlacklistRemove? then old(fromSources) - {op.domain}
              else old(fromSources)
      ensures ok <==>
              && op.domain != "" && access
              && match op.kind
                 case BlacklistAdd => op.domain !in old(table)
                 case BlacklistRemove => op.domain in old(table) || op.domain in old(fromSources)
    {
      if op.domain == "" {
        return false;
      }
      match op.kind
      case BlacklistAdd => ok := AddBlacklistedDomain(op.domain, access);
      case BlacklistRemove => ok := RemoveDomain(op.domain, access);
    }
  }

  /** The events of a queue that reach a peer: those pushed to it that arrive and have a domain. */
  function Arriving(queue: seq<Op>, peer: nat, arrives: (nat, nat) -> bool): seq<Op> {
    if queue == [] then []
    else
      var n := |queue| - 1;
      Arriving(queue[..n], peer, arrives) + if arrives(peer, n) && queue[n].domain != "" then [queue[n]] else []
  }

  class ReplicationManager {
    const isPrimary: bool
    var queue: seq<Op>

    constructor (isPrimary: bool)
      ensures this.isPrimary == isPrimary && queue == []
    {
      this.isPrimary, queue := isPrimary, [];
    }

    method Broadcast(op: Op)
      requires |queue| <= 100
      modifies this
      ensures |queue| <= 100
      ensures queue == if isPrimary && |old(queue)| < 100 then old(queue) + [op] else old(queue)
    {
      if !isPrimary {
        return;
      }
      if |queue| < QUEUE_SIZE {
        queue := queue + [op];
      }
    }

    /** One turn of the loop: the next event is taken and pushed; others may be queued between turns. */
    method ProcessNext(peers: seq<Node>, n: nat, arrives: (nat, nat) -> bool)
      requires queue != [] && Distinct(peers)
      modifies this, set p | p in peers
      ensures queue == old(queue)[1..]
      ensures Tables(peers) == Pushed(old(Tables(peers)), old(queue)[0], n, arrives)
    {
      var op := queue[0];
      queue := queue[1..];
      PushToPeers(peers, op, n, arrives);
    }

    /**
     Drains the queue; arrives(i, n) says whether the n-th event is pushed to peer i, gets
     there, and finds a working table.
     */
    method ProcessQueue(peers: seq<Node>, arrives: (nat, nat) -> bool)
      requires Distinct(peers)
      modifies this, set p | p in peers
      ensures queue == []
      ensures Tables(peers) == Drained(old(Tables(peers)), old(queue), arrives)
    {
      ghost var all, tables := queue, Tables(peers);
      var n := 0;
      while queue != []
        invariant n <= |all| && queue == all[n..]
        invariant Tables(peers) == Drained(tables, all[..n], arrives)
        decreases |queue|
      {
        ProcessNext(peers, n, arrives);
        DrainedStep(tables, all, n, arrives);
        n := n + 1;
      }
      assert all[..n] == all;
    }

    /** One round: the event is pushed to every peer, and the round ends when all pushes have. */
    method PushToPeers(peers: seq<Node>, op: Op, n: nat, arrives: (nat, nat) -> bool)
      requires Distinct(peers)
      modifies set p | p in peers
      ensures Tables(peers) == Pushed(old(Tables(peers)), op, n, arrives)
    {
      for i := 0 to |peers|
        invariant forall j: nat :: j < |peers| ==>
                    peers[j].table ==
                    if j < i then Pushed(old(Tables(peers)), op, n, arrives)[j] else old(peers[j].table)
      {
        if arrives(i, n) {
          var _ := peers[i].Replicate(op, true);
        }
      }
    }
  }

  ghost function Tables(peers: seq<Node>): (tables: seq<set<string>>)
    reads set p | p in peers
    ensures |tables| == |peers|
  {
    seq(|peers|, i requires 0 <= i < |peers| reads set p | p in peers => peers[i].table)
  }

  /** The tables after one event. */
  function Pushed(tables: seq<set<string>>, op: Op, n: nat, arrives: (nat, nat) -> bool): (r: seq<set<string>>)
    ensures |r| == |tables|
  {
    seq(|tables|, (i: nat) requires i < |tables| =>
      if arrives(i, n) && op.domain != "" then Apply(tables[i], op) else tables[i])
  }

  /** The tables after a whole queue: each peer has replayed the events that arrived there, in order. */
  function Drained(tables: seq<set<string>>, queue: seq<Op>, arrives: (nat, nat) -> bool): (r: seq<set<string>>)
    ensures |r| == |tables|
  {
    seq(|tables|, (i: nat) requires i < |tables| => Replay(tables[i], Arriving(queue, i, arrives)))
  }

  lemma {:induction false} ArrivingStep(queue: seq<Op>, n: nat, peer: nat, arrives: (nat, nat) -> bool)
    requires n < |queue|
    ensures Arriving(queue[..n + 1], peer, arrives) ==
            if arrives(peer, n) && queue[n].domain != "" then Arriving(queue[..n], peer, arrives) + [queue[n]]
            else Arriving(queue[..n], peer, arrives)
  {
    assert queue[..n + 1][..n] == queue[..n];
  }

  lemma {:induction false} DrainedStep(tables: seq<set<string>>, queue: seq<Op>, n: nat, arrives: (nat, nat) -> bool)
    requires n < |queue|
    ensures Drained(tables, queue[..n + 1], arrives) ==
            Pushed(Drained(tables, queue[..n], arrives), queue[n], n, arrives)
  {
    forall i: nat | i < |tables|
      ensures Replay(tables[i], Arriving(queue[..n + 1], i, arrives)) ==
              Pushed(Drained(tables, queue[..n], arrives), queue[n], n, arrives)[i]
    {
      ArrivingStep(queue, n, i, arrives);
      ReplayOfAppend(tables[i], Arriving(queue[..n], i, arrives), queue[n]);
    }
  }

  // ---------- the objects carry out runs of the machine ----------

  function NameSet(names: seq<Peer>): set<Peer> {
    set p | p in names
  }

  lemma {:induction false} NamesFrom(names: seq<Peer>, i: nat)
    requires i < |names| && Distinct(names)
    ensures NameSet(names[i..]) == NameSet(names[i + 1..]) + {names[i]}
    ensures names[i] !in NameSet(names[i + 1..])
  {
    assert names[i..] == [names[i]] + names[i + 1..];
  }

  function PushesTo(names: seq<Peer>, i: nat, n: nat, arrives: (nat, nat) -> bool): seq<Action>
    requires i <= |names|
  {
    if i == 0 then [] else PushesTo(names, i - 1, n, arrives) + [Push(names[i - 1], arrives(i - 1, n))]
  }

  /** Taking the n-th event and pushing it to every peer. */
  function Round(names: seq<Peer>, n: nat, arrives: (nat, nat) -> bool): seq<Action> {
    [Take(NameSet(names))] + PushesTo(names, |names|, n, arrives)
  }

  function Rounds(names: seq<Peer>, n: nat, arrives: (nat, nat) -> bool): seq<Action> {
    if n == 0 then [] else Rounds(names, n - 1, arrives) + Round(names, n - 1, arrives)
  }

  /** These are the peers, and their tables. */
  ghost predicate Represents(s: State, names: seq<Peer>, tables: seq<set<string>>) {
    && |names| == |tables| && s.peers.Keys == NameSet(names)
    && Distinct(names)
    && (forall i :: 0 <= i < |names| ==> names[i] in s.peers && s.peers[names[i]].table == tables[i])
  }

  lemma {:induction false} RunOneMore(s: State, actions: seq<Action>, a: Action)
    ensures Run(s, actions + [a]) == Step(Run(s, actions), a)
  {
    assert (actions + [a])[..|actions|] == actions;
  }

  lemma {:induction false} RunOfConcat(s: State, a: seq<Action>, b: seq<Action>)
    ensures Run(s, a + b) == Run(Run(s, a), b)
  {
    if b == [] {
      assert a + b == a;
    } else {
      var n := |b| - 1;
      RunOfConcat(s, a, b[..n]);
      assert (a + b)[..|a + b| - 1] == a + b[..n];
    }
  }

  /** The state after pushing to the first i peers. */
  function AfterPushes(t: State, names: seq<Peer>, i: nat, n: nat, arrives: (nat, nat) -> bool): State
    requires i <= |names|
  {
    if i == 0 then t
    else Step(AfterPushes(t, names, i - 1, n, arrives), Push(names[i - 1], arrives(i - 1, n)))
  }

  lemma {:induction false} PushesAreARun(t: State, names: seq<Peer>, i: nat, n: nat, arrives: (nat, nat) -> bool)
    requires i <= |names|
    ensures Run(t, PushesTo(names, i, n, arrives)) == AfterPushes(t, names, i, n, arrives)
  {
    if i > 0 {
      PushesAreARun(t, names, i - 1, n, arrives);
      RunOneMore(t, PushesTo(names, i - 1, n, arrives), Push(names[i - 1], arrives(i - 1, n)));
    }
  }

  /** All these peers are there and waiting for the event being pushed. */
  ghost predicate Waiting(t: State, names: seq<Peer>) {
    && Distinct(names) && t.peers.Keys == t.pending == NameSet(names)
    && t.current.Some? && t.current.value < |t.ops|
  }

  /** One push: the peer no longer waits, and receives the event. */
  lemma {:induction false} PushShape(t: State, p: Peer, delivered: bool)
    requires p in t.pending && p in t.peers && t.current.Some? && t.current.value < |t.ops|
    ensures Step(t, Push(p, delivered)) ==
            t.(pending := t.pending - {p},
               peers := t.peers[p := Receive(t.peers[p], t.ops, t.current.value, delivered)])
  {
  }

  /** Pushing changes nothing but which peers wait, and their states. */
  lemma {:induction false} PushesKeepQueue(t: State, names: seq<Peer>, i: nat, n: nat, arrives: (nat, nat) -> bool)
    requires Waiting(t, names) && i <= |names|
    ensures var u := AfterPushes(t, names, i, n, arrives);
            && u.queue == t.queue && u.ops == t.ops && u.current == t.current
            && u.peers.Keys == t.peers.Keys && u.pending == NameSet(names[i..])
  {
    if i == 0 {
      assert names[0..] == names;
    } else {
      PushesKeepQueue(t, names, i - 1, n, arrives);
      NamesFrom(names, i - 1);
      assert names[i - 1] in t.peers;
      PushShape(AfterPushes(t, names, i - 1, n, arrives), names[i - 1], arrives(i - 1, n));
    }
  }

  /** A peer is untouched until its own push, */
  lemma {:induction false} NotYetPushed(t: State, names: seq<Peer>, i: nat, j: nat, n: nat, arrives: (nat, nat) -> bool)
    requires Waiting(t, names) && i <= j < |names|
    ensures var u := AfterPushes(t, names, i, n, arrives);
            names[j] in t.peers && names[j] in u.peers && u.peers[names[j]] == t.peers[names[j]]
  {
    assert names[j] in NameSet(names);
    if i > 0 {
      PushesKeepQueue(t, names, i - 1, n, arrives);
      NotYetPushed(t, names, i - 1, j, n, arrives);
      NamesFrom(names, i - 1);
      PushShape(AfterPushes(t, names, i - 1, n, arrives), names[i - 1], arrives(i - 1, n));
    }
  }

  /** and from then on has the event applied if the event reached it. */
  lemma {:induction false} PushedTable(t: State, names: seq<Peer>, i: nat, j: nat, n: nat, arrives: (nat, nat) -> bool)
    requires Waiting(t, names) && j < i <= |names|
    ensures var u := AfterPushes(t, names, i, n, arrives);
            && names[j] in t.peers && names[j] in u.peers
            && u.peers[names[j]] == Receive(t.peers[names[j]], t.ops, t.current.value, arrives(j, n))
  {
    assert names[j] in NameSet(names);
    PushesKeepQueue(t, names, i - 1, n, arrives);
    NamesFrom(names, i - 1);
    PushShape(AfterPushes(t, names, i - 1, n, arrives), names[i - 1], arrives(i - 1, n));
    if j == i - 1 {
      NotYetPushed(t, names, j, j, n, arrives);
    } else {
      PushedTable(t, names, i - 1, j, n, arrives);
    }
  }

  lemma {:induction false} TakeWaits(s: State, names: seq<Peer>)
    requires Distinct(names) && s.peers.Keys == NameSet(names)
    requires s.pending == {} && s.queue != [] && s.queue[0] < |s.ops|
    ensures var t := Step(s, Take(NameSet(names)));
            && Waiting(t, names) && t.peers == s.peers
            && t.queue == s.queue[1..] && t.ops == s.ops && t.current == Some(s.queue[0])
  {
  }

  /** One turn of the loop is a round of the machine. */
  lemma {:induction false} RoundPushes(s: State, names: seq<Peer>, tables: seq<set<string>>, n: nat,
                                       arrives: (nat, nat) -> bool)
    requires Represents(s, names, tables) && s.pending == {} && s.queue != [] && s.queue[0] < |s.ops|
    ensures var t := Run(s, Round(names, n, arrives));
            && t.queue == s.queue[1..] && t.ops == s.ops && t.pending == {}
            && Represents(t, names, Pushed(tables, s.ops[s.queue[0]], n, arrives))
  {
    var t := Step(s, Take(NameSet(names)));
    RoundIsTakeAndPushes(s, names, n, arrives);
    TakeWaits(s, names);
    PushesKeepQueue(t, names, |names|, n, arrives);
    assert names[|names|..] == [];
    forall j: nat | j < |names|
      ensures AfterPushes(t, names, |names|, n, arrives).peers[names[j]].table ==
              Pushed(tables, s.ops[s.queue[0]], n, arrives)[j]
    {
      PushedTable(t, names, |names|, j, n, arrives);
    }
  }

  lemma {:induction false} RoundIsTakeAndPushes(s: State, names: seq<Peer>, n: nat, arrives: (nat, nat) -> bool)
    ensures Run(s, Round(names, n, arrives)) ==
            AfterPushes(Step(s, Take(NameSet(names))), names, |names|, n, arrives)
  {
    var take := Take(NameSet(names));
    assert [take][..0] == [];
    assert Run(s, [take]) == Step(s, take);
    RunOfConcat(s, [take], PushesTo(names, |names|, n, arrives));
    PushesAreARun(Step(s, take), names, |names|, n, arrives);
  }

  /**
   Draining the first n events of the queue leaves the peers as n rounds of the machine do,
   so what holds over all its runs holds for the objects.
   */
  lemma {:induction false} DrainingIsARun(s: State, names: seq<Peer>, tables: seq<set<string>>, n: nat,
                                          arrives: (nat, nat) -> bool)
    requires Represents(s, names, tables) && QueueInOrder(s) && s.pending == {} && n <= |s.queue|
    ensures var t := Run(s, Rounds(names, n, arrives));
            && t.queue == s.queue[n..] && t.ops == s.ops && t.pending == {}
            && Represents(t, names, Drained(tables, Select(s.ops, s.queue)[..n], arrives))
  {
    var queue := Select(s.ops, s.queue);
    if n == 0 {
      assert Drained(tables, queue[..0], arrives) == tables;
    } else {
      DrainingIsARun(s, names, tables, n - 1, arrives);
      var t := Run(s, Rounds(names, n - 1, arrives));
      assert t.queue[0] == s.queue[n - 1] && t.queue[1..] == s.queue[n..];
      RoundPushes(t, names, Drained(tables, queue[..n - 1], arrives), n - 1, arrives);
      RunOfConcat(s, Rounds(names, n - 1, arrives), Round(names, n - 1, arrives));
      DrainedStep(tables, queue, n - 1, arrives);
    }
  }

  /** And queueing an event is what the machine does with the operation just made. */
  lemma {:induction false} BroadcastingIsAStep(s: State, op: Op)
    requires QueueInOrder(s)
    ensures var t := Step(s, Call(op, true));
            Select(t.ops, t.queue) ==
            Select(s.ops, s.queue) + if s.isPrimary && |s.queue| < 100 then [op] else []
  {
  }
}
