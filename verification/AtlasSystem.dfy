/**
 All callers, the table of swarms, the garbage collector and every node together,
 as one step system over arbitrary interleavings.

 A caller is one run of the proxy's request handler: it passes the two lock sections,
 then holds a clone of the channel's sender until it returns, and may put any commands
 on the channel, waiting for each reply.
 */
module AtlasSystem {
  import opened Wrappers
  import opened Network
  import opened NetworkHistory
  import opened SwarmManager

  const CHANNEL_CAPACITY: nat := 32

  /** What a caller is doing; with a channel, the position in the table's log at which it was handed out. */
  datatype Phase =
    | Start(tld: string)
    | Resolving(tld: string)
    | Holding(tld: string, node: nat, at: nat)
    | Awaiting(tld: string, node: nat, at: nat, cmd: Command)
    | Gone

  /** One spawned node: its command channel and everything its loop has selected so far. */
  datatype Node = Node(tld: string, queue: seq<Command>, history: seq<Input>)

  /** The oneshot created for a command, numbered by its position in the list of all of them. */
  datatype Issue = Issue(node: nat, cmd: Command)

  datatype System = System(
    now: Instant,
    table: Table,
    nodes: seq<Node>,
    callers: map<nat, Phase>,
    issued: seq<Issue>)

  const INIT: System := System(0, EMPTY, [], map[], [])

  datatype Action =
    | Arrive(caller: nat, tld: string)
    | FirstLock(caller: nat)
    | SecondLock(caller: nat, initOk: bool)
    | Send(caller: nat, cmd: Command)
    | Wake(caller: nat)
    | Leave(caller: nat)
    | Advance(dt: nat)
    | CollectGarbage
    | Receive(node: nat, lib: Library)
    | Deliver(node: nat, event: SwarmEvent)
    | CloseChannel(node: nat)
    | StopNode(node: nat)

  // ---------------------------------------------------------------- steps

  predicate HasChannel(p: Phase) {
    p.Holding? || p.Awaiting?
  }

  predicate Holds(p: Phase, n: nat) {
    HasChannel(p) && p.node == n
  }

  /** Somebody still has a sender of the node's channel: the table or a caller. */
  ghost predicate HasSender(s: System, n: nat) {
    || (exists tld :: tld in s.table.swarms && s.table.swarms[tld].node == n)
    || (exists c :: c in s.callers && Holds(s.callers[c], n))
  }

  ghost predicate Running(n: Node) {
    Replay(n.history).running
  }

  /** The awaited oneshot has a value, or its sender is gone. */
  ghost predicate Resolved(n: Node, r: Responder) {
    || (exists reply :: (r, reply) in Replay(n.history).sent)
    || Drops(Replay(n.history), r) > 0
    || Input.Shutdown in n.history
  }

  /** The caller is where the action finds it, and the node exists. */
  predicate Applicable(s: System, a: Action) {
    match a
    case Arrive(c, _) => c !in s.callers
    case FirstLock(c) => c in s.callers && s.callers[c].Start?
    case SecondLock(c, _) => c in s.callers && s.callers[c].Resolving?
    case Send(c, _) => c in s.callers && s.callers[c].Holding? && s.callers[c].node < |s.nodes|
    case Wake(c) => c in s.callers && s.callers[c].Awaiting? && s.callers[c].node < |s.nodes|
    case Leave(c) => c in s.callers
    case Advance(_) => true
    case CollectGarbage => true
    case Receive(n, _) => n < |s.nodes| && s.nodes[n].queue != []
    case Deliver(n, _) => n < |s.nodes|
    case CloseChannel(n) => n < |s.nodes|
    case StopNode(n) => n < |s.nodes|
  }

  /** The channel, the oneshot or the loop is ready for it. */
  ghost predicate Ready(s: System, a: Action)
    requires Applicable(s, a)
  {
    match a
    case Send(c, cmd) =>
      var node := s.nodes[s.callers[c].node];
      Running(node) && |node.queue| < CHANNEL_CAPACITY && cmd.resp == |s.issued|
    case Wake(c) => Resolved(s.nodes[s.callers[c].node], s.callers[c].cmd.resp)
    case Receive(n, lib) =>
      Running(s.nodes[n]) && FreshIds(s.nodes[n].history + [Received(s.nodes[n].queue[0], lib)])
    case Deliver(n, _) => Running(s.nodes[n])
    case CloseChannel(n) => Running(s.nodes[n]) && s.nodes[n].queue == [] && !HasSender(s, n)
    case StopNode(n) => Running(s.nodes[n])
    case _ => true
  }

  ghost predicate Enabled(s: System, a: Action) {
    Applicable(s, a) && Ready(s, a)
  }

  function SetCaller(s: System, c: nat, p: Phase): System {
    s.(callers := s.callers[c := p])
  }

  function Select(n: Node, i: Input): Node {
    n.(history := n.history + [i])
  }

  /** Leaving a lock section: with the channel, whose handing out is the newest entry of the log, or without. */
  function AfterLock(tld: string, table: Table, channel: Option<nat>, otherwise: Phase): Phase
    requires channel.Some? ==> table.log != []
  {
    match channel
    case Some(node) => Holding(tld, node, |table.log| - 1)
    case None => otherwise
  }

  function Apply(s: System, a: Action): System
    requires Applicable(s, a)
  {
    match a
    case Arrive(c, tld) => SetCaller(s, c, Start(tld))
    case FirstLock(c) =>
      var tld := s.callers[c].tld;
      var (table, channel) := FirstCheck(s.table, tld, s.now);
      SetCaller(s, c, AfterLock(tld, table, channel, Resolving(tld))).(table := table)
    case SecondLock(c, initOk) =>
      var tld := s.callers[c].tld;
      var (table, channel) := SecondCheck(s.table, tld, s.now, initOk);
      SetCaller(s, c, AfterLock(tld, table, channel, Gone))
        .(table := table,
          nodes := if table.spawned > s.table.spawned then s.nodes + [Node(tld, [], [])] else s.nodes)
    case Send(c, cmd) =>
      var Holding(tld, n, at) := s.callers[c];
      SetCaller(s, c, Awaiting(tld, n, at, cmd))
        .(nodes := s.nodes[n := s.nodes[n].(queue := s.nodes[n].queue + [cmd])],
          issued := s.issued + [Issue(n, cmd)])
    case Wake(c) => SetCaller(s, c, Holding(s.callers[c].tld, s.callers[c].node, s.callers[c].at))
    case Leave(c) => SetCaller(s, c, Gone)
    case Advance(dt) => s.(now := s.now + dt)
    case CollectGarbage => s.(table := Collect(s.table, s.now))
    case Receive(n, lib) =>
      var cmd := s.nodes[n].queue[0];
      s.(nodes := s.nodes[n := Select(s.nodes[n], Received(cmd, lib)).(queue := s.nodes[n].queue[1..])])
    case Deliver(n, event) => s.(nodes := s.nodes[n := Select(s.nodes[n], Event(event))])
    case CloseChannel(n) => s.(nodes := s.nodes[n := Select(s.nodes[n], ChannelClosed)])
    case StopNode(n) => s.(nodes := s.nodes[n := Select(s.nodes[n], Input.Shutdown).(queue := [])])
  }

  /** The state after a run, if each action of the run is enabled where it happens. */
  ghost function After(actions: seq<Action>): Option<System> {
    if actions == [] then Some(INIT)
    else
      var a := actions[|actions| - 1];
      match After(actions[..|actions| - 1])
      case Some(s) => if Enabled(s, a) then Some(Apply(s, a)) else None
      case None => None
  }

  // ---------------------------------------------------------------- the invariant

  ghost function Resps(q: seq<Command>): multiset<Responder> {
    if q == [] then multiset{} else multiset{q[0].resp} + Resps(q[1..])
  }

  lemma {:induction false} RespsSnoc(q: seq<Command>, cmd: Command, x: Responder)
    ensures Resps(q + [cmd])[x] == Resps(q)[x] + if cmd.resp == x then 1 else 0
  {
    if q != [] {
      assert (q + [cmd])[1..] == q[1..] + [cmd];
      RespsSnoc(q[1..], cmd, x);
    }
  }

  ghost predicate IssuedTo(issued: seq<Issue>, n: nat, cmd: Command) {
    cmd.resp < |issued| && issued[cmd.resp] == Issue(n, cmd)
  }

  /** In how many of the node's two places a responder is: still queued, or taken by the loop. */
  ghost function Held(node: Node, x: Responder): nat {
    Resps(node.queue)[x] + Accepted(node.history)[x]
  }

  ghost predicate EachHeldOnce(node: Node, n: nat, issued: seq<Issue>) {
    forall x: Responder :: Held(node, x) == if x < |issued| && issued[x].node == n then 1 else 0
  }

  ghost predicate StopsLast(h: seq<Input>) {
    forall j :: 0 <= j < |h| - 1 ==> !IsStop(h[j])
  }

  /** What holds of one node, given the oneshots created so far. */
  ghost predicate NodeOk(node: Node, n: nat, issued: seq<Issue>) {
    && |node.queue| <= CHANNEL_CAPACITY
    && FreshIds(node.history)
    && StopsLast(node.history)
    && (forall cmd <- node.queue :: IssuedTo(issued, n, cmd))
    && (forall i <- node.history :: i.Received? ==> IssuedTo(issued, n, i.cmd))
    && (Input.Shutdown !in node.history ==> EachHeldOnce(node, n, issued))
  }

  /** A loop that ended without a shutdown has no sender left, so nobody can use it again. */
  ghost predicate ClosedForGood(s: System, n: nat)
    requires n < |s.nodes|
  {
    !Running(s.nodes[n]) && Input.Shutdown !in s.nodes[n].history ==> !HasSender(s, n)
  }

  ghost predicate NodesOk(s: System) {
    forall n :: 0 <= n < |s.nodes| ==> NodeOk(s.nodes[n], n, s.issued)
  }

  ghost predicate ChannelsOk(s: System) {
    forall n :: 0 <= n < |s.nodes| ==> ClosedForGood(s, n)
  }

  /** The log entry at that position handed out that channel. */
  predicate HandedTo(log: seq<LogEntry>, at: nat, tld: string, node: nat) {
    at < |log| && log[at].HandedOut? && log[at].tld == tld && log[at].node == node
  }

  ghost predicate CallerOk(s: System, p: Phase) {
    && (HasChannel(p) ==>
          && p.node < |s.nodes| && s.nodes[p.node].tld == p.tld
          && HandedTo(s.table.log, p.at, p.tld, p.node))
    && (p.Awaiting? ==> IssuedTo(s.issued, p.node, p.cmd))
  }

  ghost predicate CallersOk(s: System) {
    && (forall c <- s.callers :: CallerOk(s, s.callers[c]))
    && (forall i <- s.issued :: i.node < |s.nodes|)
  }

  function NodesFor(nodes: seq<Node>, tld: string): nat {
    if nodes == [] then 0
    else NodesFor(nodes[..|nodes| - 1], tld) + if nodes[|nodes| - 1].tld == tld then 1 else 0
  }

  /** Every mapped handle leads to a node of its own TLD. */
  ghost predicate HandlesOk(s: System) {
    && s.table.spawned == |s.nodes|
    && (forall tld <- s.table.swarms ::
          s.table.swarms[tld].node < |s.nodes| && s.nodes[s.table.swarms[tld].node].tld == tld)
  }

  ghost predicate TableOk(s: System) {
    && Sound(s.table, s.now)
    && HandlesOk(s)
    && (forall tld :: NodesFor(s.nodes, tld) == Spawns(s.table.log, tld))
  }

  ghost predicate Inv(s: System) {
    TableOk(s) && NodesOk(s) && ChannelsOk(s) && CallersOk(s)
  }

  // ---------------------------------------------------------------- each action keeps it

  /** Replacing a node by one for the same TLD leaves the counts alone. */
  lemma {:induction false} NodesForUpdate(nodes: seq<Node>, n: nat, node: Node, tld: string)
    requires n < |nodes| && node.tld == nodes[n].tld
    ensures NodesFor(nodes[n := node], tld) == NodesFor(nodes, tld)
  {
    var k := |nodes| - 1;
    if n < k {
      assert nodes[n := node][..k] == nodes[..k][n := node];
      NodesForUpdate(nodes[..k], n, node, tld);
    } else {
      assert nodes[n := node][..k] == nodes[..k];
    }
  }

  lemma NodesForSnoc(nodes: seq<Node>, node: Node, tld: string)
    ensures NodesFor(nodes + [node], tld) == NodesFor(nodes, tld) + if node.tld == tld then 1 else 0
  {
  }

  /** No action gives a new sender to a node that had none: senders are only cloned from senders. */
  lemma SendersComeFromSenders(s: System, a: Action, n: nat)
    requires HandlesOk(s) && Enabled(s, a) && n < |s.nodes| && HasSender(Apply(s, a), n)
    ensures HasSender(s, n)
  {
  }

  lemma TableKept(s: System, a: Action)
    requires Inv(s) && Enabled(s, a)
    ensures TableOk(Apply(s, a))
  {
    var t := Apply(s, a);
    match a {
      case FirstLock(c) => TableKeptByFirstLock(s, c);
      case SecondLock(c, initOk) => TableKeptBySecondLock(s, c, initOk);
      case Advance(dt) => LaterIsSound(s.table, s.now, t.now);
      case CollectGarbage => TableKeptByCollector(s);
      case Send(c, _) => SameNodes(s, t, s.callers[c].node);
      case Receive(n, _) => SameNodes(s, t, n);
      case Deliver(n, _) => SameNodes(s, t, n);
      case CloseChannel(n) => SameNodes(s, t, n);
      case StopNode(n) => SameNodes(s, t, n);
      case Arrive(_, _) =>
      case Wake(_) =>
      case Leave(_) =>
    }
  }

  lemma TableKeptByFirstLock(s: System, c: nat)
    requires Inv(s) && Enabled(s, FirstLock(c))
    ensures TableOk(Apply(s, FirstLock(c)))
  {
    var tld := s.callers[c].tld;
    ChecksAreSound(s.table, tld, s.now, true);
    if tld in s.table.swarms {
      forall other
        ensures Spawns(Touch(s.table, tld, s.now).log, other) == Spawns(s.table.log, other)
      {
        EntryCounts(s.table.log, HandedOut(tld, s.table.swarms[tld].node, s.now), other);
      }
    }
  }

  lemma {:induction false} TableKeptBySecondLock(s: System, c: nat, initOk: bool)
    requires Inv(s) && Enabled(s, SecondLock(c, initOk))
    ensures TableOk(Apply(s, SecondLock(c, initOk)))
  {
    var tld := s.callers[c].tld;
    var t := Apply(s, SecondLock(c, initOk));
    if tld in s.table.swarms {
      ChecksAreSound(s.table, tld, s.now, initOk);
      forall other
        ensures Spawns(t.table.log, other) == Spawns(s.table.log, other)
      {
        EntryCounts(s.table.log, HandedOut(tld, s.table.swarms[tld].node, s.now), other);
      }
    } else if initOk {
      SpawnKeepsTable(s, tld, t);
    }
  }

  lemma SpawnKeepsTable(s: System, tld: string, t: System)
    requires TableOk(s) && tld !in s.table.swarms
    requires t.table == Insert(s.table, tld, s.now) && t.now == s.now && t.nodes == s.nodes + [Node(tld, [], [])]
    ensures TableOk(t)
  {
    InsertIsSound(s.table, tld, s.now);
    forall other
      ensures NodesFor(t.nodes, other) == Spawns(t.table.log, other)
    {
      SpawnCounts(s.table, tld, s.now, other);
      NodesForSnoc(s.nodes, Node(tld, [], []), other);
    }
  }

  lemma SpawnCounts(table: Table, tld: string, now: Instant, other: string)
    ensures Spawns(Insert(table, tld, now).log, other) == Spawns(table.log, other) + if other == tld then 1 else 0
  {
    var first := table.log + [Spawned(tld, table.spawned)];
    assert Insert(table, tld, now).log == first + [HandedOut(tld, table.spawned, now)];
    EntryCounts(table.log, Spawned(tld, table.spawned), other);
    EntryCounts(first, HandedOut(tld, table.spawned, now), other);
  }

  lemma TableKeptByCollector(s: System)
    requires Inv(s)
    ensures TableOk(Apply(s, CollectGarbage))
  {
    var t := Apply(s, CollectGarbage);
    CollectIsSound(s.table, s.now);
    forall other
      ensures Spawns(t.table.log, other) == Spawns(s.table.log, other)
    {
      EntryCounts(s.table.log, t.table.log[|s.table.log|], other);
    }
  }

  lemma SameNodes(s: System, t: System, n: nat)
    requires TableOk(s) && t.table == s.table && t.now == s.now
    requires n < |s.nodes| == |t.nodes| && t.nodes == s.nodes[n := t.nodes[n]] && t.nodes[n].tld == s.nodes[n].tld
    ensures TableOk(t)
  {
    forall tld
      ensures NodesFor(t.nodes, tld) == NodesFor(s.nodes, tld)
    {
      NodesForUpdate(s.nodes, n, t.nodes[n], tld);
    }
  }

  /** A new oneshot for another node does not concern this one. */
  lemma NodeOkMoreIssued(node: Node, n: nat, issued: seq<Issue>, i: Issue)
    requires NodeOk(node, n, issued) && i.node != n
    ensures NodeOk(node, n, issued + [i])
  {
  }

  lemma SendKeepsNode(node: Node, n: nat, issued: seq<Issue>, cmd: Command)
    requires NodeOk(node, n, issued) && |node.queue| < CHANNEL_CAPACITY && cmd.resp == |issued|
    ensures NodeOk(node.(queue := node.queue + [cmd]), n, issued + [Issue(n, cmd)])
  {
    var after, more := node.(queue := node.queue + [cmd]), issued + [Issue(n, cmd)];
    if Input.Shutdown !in node.history {
      forall x: Responder
        ensures Held(after, x) == if x < |more| && more[x].node == n then 1 else 0
      {
        RespsSnoc(node.queue, cmd, x);
        assert Held(node, x) == if x < |issued| && issued[x].node == n then 1 else 0;
      }
    }
  }

  lemma SelectKeepsNode(node: Node, n: nat, issued: seq<Issue>, i: Input, queue: seq<Command>)
    requires NodeOk(node, n, issued) && Running(node) && FreshIds(node.history + [i])
    requires if i.Received? then node.queue != [] && i.cmd == node.queue[0] && queue == node.queue[1..]
             else if i.Shutdown? then queue == [] else queue == node.queue
    ensures NodeOk(Select(node, i).(queue := queue), n, issued)
  {
  }

  lemma FreshWithoutCommand(h: seq<Input>, i: Input)
    requires FreshIds(h) && !i.Received?
    ensures FreshIds(h + [i])
  {
  }

  lemma NodesKeptBySend(s: System, t: System, n: nat, cmd: Command)
    requires NodesOk(s) && n < |s.nodes| && |s.nodes[n].queue| < CHANNEL_CAPACITY && cmd.resp == |s.issued|
    requires t.nodes == s.nodes[n := s.nodes[n].(queue := s.nodes[n].queue + [cmd])]
    requires t.issued == s.issued + [Issue(n, cmd)]
    ensures NodesOk(t)
  {
    forall m | 0 <= m < |t.nodes|
      ensures NodeOk(t.nodes[m], m, t.issued)
    {
      if m == n {
        SendKeepsNode(s.nodes[n], n, s.issued, cmd);
      } else {
        NodeOkMoreIssued(s.nodes[m], m, s.issued, Issue(n, cmd));
      }
    }
  }

  lemma NodesKeptBySelect(s: System, t: System, n: nat, i: Input, queue: seq<Command>)
    requires NodesOk(s) && n < |s.nodes| && Running(s.nodes[n])
    requires i.Received? ==> FreshIds(s.nodes[n].history + [i])
    requires var was := s.nodes[n].queue;
             if i.Received? then was != [] && i.cmd == was[0] && queue == was[1..]
             else if i.Shutdown? then queue == [] else queue == was
    requires t.nodes == s.nodes[n := Select(s.nodes[n], i).(queue := queue)] && t.issued == s.issued
    ensures NodesOk(t)
  {
    if !i.Received? {
      FreshWithoutCommand(s.nodes[n].history, i);
    }
    SelectKeepsNode(s.nodes[n], n, s.issued, i, queue);
  }

  lemma NodesKeptBySpawn(s: System, t: System, tld: string)
    requires Inv(s) && t.issued == s.issued && (t.nodes == s.nodes || t.nodes == s.nodes + [Node(tld, [], [])])
    ensures NodesOk(t)
  {
    NewNodeOk(s, tld);
  }

  lemma {:induction false} NodesKept(s: System, a: Action)
    requires Inv(s) && Enabled(s, a)
    ensures NodesOk(Apply(s, a))
  {
    var t := Apply(s, a);
    match a {
      case Send(c, cmd) => NodesKeptBySend(s, t, s.callers[c].node, cmd);
      case Receive(n, lib) => NodesKeptBySelect(s, t, n, Received(s.nodes[n].queue[0], lib), t.nodes[n].queue);
      case Deliver(n, event) => NodesKeptBySelect(s, t, n, Event(event), t.nodes[n].queue);
      case CloseChannel(n) => NodesKeptBySelect(s, t, n, ChannelClosed, t.nodes[n].queue);
      case StopNode(n) => NodesKeptBySelect(s, t, n, Input.Shutdown, []);
      case SecondLock(c, _) => NodesKeptBySpawn(s, t, s.callers[c].tld);
      case _ =>
    }
  }

  lemma NewNodeOk(s: System, tld: string)
    requires Inv(s)
    ensures NodeOk(Node(tld, [], []), |s.nodes|, s.issued)
  {
  }

  lemma ChannelsKept(s: System, a: Action)
    requires Inv(s) && Enabled(s, a)
    ensures ChannelsOk(Apply(s, a))
  {
    var t := Apply(s, a);
    forall n | 0 <= n < |t.nodes|
      ensures ClosedForGood(t, n)
    {
      if n < |s.nodes| {
        assert ClosedForGood(s, n);
        if HasSender(t, n) {
          SendersComeFromSenders(s, a, n);
          UsedNodeKeepsRunning(s, a, n);
        }
      }
    }
  }

  /** What the loop of a node selects in a step. */
  function Selected(s: System, a: Action, n: nat): seq<Input>
    requires Applicable(s, a)
  {
    match a
    case Receive(m, lib) => if m == n then [Received(s.nodes[m].queue[0], lib)] else []
    case Deliver(m, event) => if m == n then [Event(event)] else []
    case CloseChannel(m) => if m == n then [ChannelClosed] else []
    case StopNode(m) => if m == n then [Input.Shutdown] else []
    case _ => []
  }

  lemma HistoryGrows(s: System, a: Action, n: nat)
    requires Applicable(s, a) && n < |s.nodes|
    ensures n < |Apply(s, a).nodes|
    ensures Apply(s, a).nodes[n].history == s.nodes[n].history + Selected(s, a, n)
  {
  }

  /** The channel of a node is not closed under a sender. */
  lemma UsedNodeIsNotClosed(s: System, a: Action, n: nat)
    requires Enabled(s, a) && HasSender(s, n)
    ensures ChannelClosed !in Selected(s, a, n)
  {
  }

  /** A loop that was not told that its channel is closed runs on, or was shut down. */
  lemma {:induction false} LoopRunsOn(h: seq<Input>, more: seq<Input>)
    requires Replay(h).running || Input.Shutdown in h
    requires |more| <= 1 && ChannelClosed !in more
    ensures Replay(h + more).running || Input.Shutdown in h + more
  {
    if more == [] {
      assert h + more == h;
    } else {
      var i := more[0];
      assert i in more && h + more == h + [i];
      assert (h + [i])[..|h|] == h;
      assert !IsStop(i) || i.Shutdown?;
    }
  }

  /** A node that somebody can still reach stops only by a shutdown. */
  lemma {:induction false} UsedNodeKeepsRunning(s: System, a: Action, n: nat)
    requires Enabled(s, a) && n < |s.nodes| && HasSender(s, n) && ClosedForGood(s, n)
    ensures n < |Apply(s, a).nodes|
    ensures Running(Apply(s, a).nodes[n]) || Input.Shutdown in Apply(s, a).nodes[n].history
  {
    HistoryGrows(s, a, n);
    UsedNodeIsNotClosed(s, a, n);
    LoopRunsOn(s.nodes[n].history, Selected(s, a, n));
  }

  lemma LogGrows(s: System, a: Action)
    requires Applicable(s, a)
    ensures s.table.log <= Apply(s, a).table.log
  {
  }

  lemma NodesAndIssuesStay(s: System, a: Action)
    requires Applicable(s, a)
    ensures |s.nodes| <= |Apply(s, a).nodes| && s.issued <= Apply(s, a).issued
    ensures forall n :: 0 <= n < |s.nodes| ==> Apply(s, a).nodes[n].tld == s.nodes[n].tld
  {
  }

  lemma StillOk(s: System, t: System, p: Phase)
    requires CallerOk(s, p) && s.table.log <= t.table.log && s.issued <= t.issued
    requires |s.nodes| <= |t.nodes| && forall n :: 0 <= n < |s.nodes| ==> t.nodes[n].tld == s.nodes[n].tld
    ensures CallerOk(t, p)
  {
  }

  lemma CallersKept(s: System, a: Action)
    requires HandlesOk(s) && CallersOk(s) && Enabled(s, a)
    ensures CallersOk(Apply(s, a))
  {
    var t := Apply(s, a);
    LogGrows(s, a);
    NodesAndIssuesStay(s, a);
    assert s.issued <= t.issued && forall x :: 0 <= x < |s.issued| ==> t.issued[x] == s.issued[x];
    forall c <- t.callers
      ensures CallerOk(t, t.callers[c])
    {
      if c in s.callers {
        StillOk(s, t, s.callers[c]);
        if t.callers[c] != s.callers[c] {
          MovedCallerOk(s, a, c);
        }
      }
    }
  }

  /** The caller whose phase a step changes. */
  lemma MovedCallerOk(s: System, a: Action, c: nat)
    requires HandlesOk(s) && Enabled(s, a) && c in s.callers && CallerOk(s, s.callers[c])
    requires c in Apply(s, a).callers && Apply(s, a).callers[c] != s.callers[c]
    ensures CallerOk(Apply(s, a), Apply(s, a).callers[c])
  {
  }

  /** The invariant holds in every reachable state, for any number of callers and any interleaving. */
  lemma {:induction false} InvariantHolds(actions: seq<Action>)
    requires After(actions).Some?
    ensures Inv(After(actions).value)
  {
    if actions == [] {
      EmptyIsSound(0);
    } else {
      var s := After(actions[..|actions| - 1]).value;
      var a := actions[|actions| - 1];
      InvariantHolds(actions[..|actions| - 1]);
      TableKept(s, a);
      NodesKept(s, a);
      ChannelsKept(s, a);
      CallersKept(s, a);
    }
  }
}
