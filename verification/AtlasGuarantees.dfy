/**
 What callers of the system can rely on, in every reachable state of every
 interleaving of callers, lock sections, collections, node loops and the clock.
 */
module AtlasGuarantees {
  import opened Wrappers
  import opened Network
  import opened NetworkHistory
  import opened SwarmManager
  import opened AtlasSystem

  // ---------------------------------------------------------------- no reply is lost

  /** While the loop runs, the only dropped responders belong to peer lookups. */
  lemma {:induction false} DroppedWereLookups(h: seq<Input>, x: Responder) returns (i: nat)
    requires FreshIds(h) && x in Replay(h).overwritten
    ensures i < |h| && h[i].Received? && h[i].cmd.LookupPeer? && h[i].cmd.resp == x
  {
    var front, last := h[..|h| - 1], h[|h| - 1];
    assert forall k :: 0 <= k < |front| ==> front[k] == h[k];
    if x in Replay(front).overwritten {
      i := DroppedWereLookups(front, x);
    } else {
      i := OccupantWasReceived(front, SlotOf(last.cmd, last.lib).value);
    }
  }

  lemma {:induction false} AcceptedWasReceived(h: seq<Input>, x: Responder) returns (i: nat)
    requires x in Accepted(h)
    ensures i < |h| && h[i].Received? && h[i].cmd.resp == x
  {
    if x in Accepted(h[..|h| - 1]) {
      i := AcceptedWasReceived(h[..|h| - 1], x);
    } else {
      i := |h| - 1;
    }
  }

  /** A node some caller still uses is running, unless a shutdown reached it: sending to it cannot fail. */
  lemma {:induction false} UsedNodeIsRunning(actions: seq<Action>, c: nat)
    requires After(actions).Some? && c in After(actions).value.callers
    ensures var s := After(actions).value; var p := s.callers[c];
            HasChannel(p) ==>
              && p.node < |s.nodes| && s.nodes[p.node].tld == p.tld
              && (Input.Shutdown !in s.nodes[p.node].history ==> Running(s.nodes[p.node]))
  {
    InvariantHolds(actions);
    var s := After(actions).value;
    var p := s.callers[c];
    assert CallerOk(s, p);
    if HasChannel(p) {
      assert Holds(p, p.node);
      assert ClosedForGood(s, p.node);
    }
  }

  /**
   Eviction never loses a reply.  Whatever the collector did meanwhile, the responder of
   a caller that waits is in exactly one place of a running node: queued, pending or
   answered.  Only a peer lookup can instead have been dropped.
   */
  lemma {:induction false} AwaitedReplyIsNeverLost(actions: seq<Action>, c: nat)
    requires After(actions).Some?
    requires c in After(actions).value.callers && After(actions).value.callers[c].Awaiting?
    requires var s := After(actions).value; var p := s.callers[c];
             p.node < |s.nodes| ==> Input.Shutdown !in s.nodes[p.node].history
    ensures var s := After(actions).value; var p := s.callers[c]; var r := p.cmd.resp;
            && p.node < |s.nodes| && Running(s.nodes[p.node])
            && Resps(s.nodes[p.node].queue)[r] + Places(Replay(s.nodes[p.node].history), r) == 1
            && (!p.cmd.LookupPeer? ==> Drops(Replay(s.nodes[p.node].history), r) == 0)
  {
    InvariantHolds(actions);
    UsedNodeIsRunning(actions, c);
    var s := After(actions).value;
    var p := s.callers[c];
    var r, node := p.cmd.resp, s.nodes[p.node];
    assert CallerOk(s, p) && NodeOk(node, p.node, s.issued);
    assert Held(node, r) == 1;
    ResponderConservation(node.history, r);
    NothingLostWhileRunning(node.history);
    assert Waiters(map[], r) == 0;
    if r in Replay(node.history).overwritten {
      var i := DroppedWereLookups(node.history, r);
      assert node.history[i] in node.history;
    }
  }

  /** The reply a waiting caller gets is the one the node's history fixes for its command, and no other. */
  lemma {:induction false} ReplyIsTheFateOfTheCommand(actions: seq<Action>, c: nat, reply: Reply)
    requires After(actions).Some?
    requires c in After(actions).value.callers && After(actions).value.callers[c].Awaiting?
    requires var s := After(actions).value; var p := s.callers[c];
             p.node < |s.nodes| && Input.Shutdown !in s.nodes[p.node].history
    ensures var s := After(actions).value; var p := s.callers[c]; var h := s.nodes[p.node].history;
            (p.cmd.resp, reply) in Replay(h).sent <==>
            exists i :: 0 <= i < |h| && h[i].Received? && h[i].cmd == p.cmd && FateAt(h, i) == Answered(reply)
  {
    InvariantHolds(actions);
    var s := After(actions).value;
    var p := s.callers[c];
    var node := s.nodes[p.node];
    var h, r := node.history, p.cmd.resp;
    assert CallerOk(s, p) && NodeOk(node, p.node, s.issued);
    assert DistinctResponders(h) by {
      forall x | x in Accepted(h)
        ensures Accepted(h)[x] == 1
      {
        assert Held(node, x) <= 1;
      }
    }
    forall i | 0 <= i < |h| && h[i].Received? && h[i].cmd == p.cmd
      ensures (r, reply) in Replay(h).sent <==> FateAt(h, i) == Answered(reply)
    {
      ExactlyOneFate(h, i);
    }
    if (r, reply) in Replay(h).sent {
      SentIsRecipient(Replay(h).sent, r);
      ResponderConservation(h, r);
      var i := AcceptedWasReceived(h, r);
      assert h[i] in h && IssuedTo(s.issued, p.node, h[i].cmd);
    }
  }

  // ---------------------------------------------------------------- no caller is stuck

  /** An event that frees a slot. */
  function FreeingEvent(slot: Slot): (e: SwarmEvent)
    ensures Completion(e).Some? && Completion(e).value.0 == slot
  {
    match slot
    case QuerySlot(id) => QueryProgressed(id, OtherResult)
    case DialSlot(peer) => OutgoingConnectionError(Some(peer))
    case RequestSlot(id) => OutboundFailure(id)
  }

  function UnusedId(h: seq<Input>): (id: nat)
    ensures forall i <- h :: i.Received? ==> i.lib.id < id
  {
    if h == [] then 0
    else
      var last := h[|h| - 1];
      var id := UnusedId(h[..|h| - 1]);
      assert h == h[..|h| - 1] + [last];
      if last.Received? && last.lib.id >= id then last.lib.id + 1 else id
  }

  lemma UnusedIdIsFresh(h: seq<Input>, cmd: Command)
    requires FreshIds(h)
    ensures FreshIds(h + [Received(cmd, Library(UnusedId(h), None, false))])
  {
  }

  lemma Continue(actions: seq<Action>, a: Action)
    requires After(actions).Some? && Enabled(After(actions).value, a)
    ensures After(actions + [a]) == Some(Apply(After(actions).value, a))
  {
  }

  /** The caller waits on a running node, and its reply is not there yet. */
  ghost predicate StillWaits(s: System, c: nat) {
    && c in s.callers && s.callers[c].Awaiting? && s.callers[c].node < |s.nodes|
    && !Resolved(s.nodes[s.callers[c].node], s.callers[c].cmd.resp)
  }

  ghost predicate CanWake(o: Option<System>, c: nat) {
    o.Some? && Enabled(o.value, Wake(c))
  }

  ghost function QueueOf(s: System, c: nat): seq<Command>
    requires StillWaits(s, c)
  {
    s.nodes[s.callers[c].node].queue
  }

  /** The node's loop can take the next queued command, after which the caller wakes or still waits. */
  lemma {:induction false} NextCommandCanBeTaken(actions: seq<Action>, c: nat) returns (a: Action)
    requires After(actions).Some? && StillWaits(After(actions).value, c) && QueueOf(After(actions).value, c) != []
    ensures After(actions + [a]).Some?
    ensures CanWake(After(actions + [a]), c)
            || (StillWaits(After(actions + [a]).value, c)
                && QueueOf(After(actions + [a]).value, c) == QueueOf(After(actions).value, c)[1..])
  {
    InvariantHolds(actions);
    UsedNodeIsRunning(actions, c);
    var s := After(actions).value;
    var n := s.callers[c].node;
    assert NodeOk(s.nodes[n], n, s.issued);
    UnusedIdIsFresh(s.nodes[n].history, s.nodes[n].queue[0]);
    a := Receive(n, Library(UnusedId(s.nodes[n].history), None, false));
    Continue(actions, a);
  }

  /** With nothing queued, some event completes the awaited command. */
  lemma {:induction false} SomeEventWakes(actions: seq<Action>, c: nat) returns (a: Action)
    requires After(actions).Some? && StillWaits(After(actions).value, c) && QueueOf(After(actions).value, c) == []
    ensures CanWake(After(actions + [a]), c)
  {
    var s := After(actions).value;
    UsedNodeIsRunning(actions, c);
    AwaitedReplyIsNeverLost(actions, c);
    var n, r := s.callers[c].node, s.callers[c].cmd.resp;
    SentIsRecipient(Replay(s.nodes[n].history).sent, r);
    var slot := WaitingSlot(s.nodes[n], r);
    FreeingWakes(s.nodes[n], slot, r);
    a := Deliver(n, FreeingEvent(slot));
    Continue(actions, a);
  }

  ghost predicate Stuck(actions: seq<Action>, c: nat) {
    After(actions).Some? && StillWaits(After(actions).value, c)
  }

  ghost function Backlog(actions: seq<Action>, c: nat): nat {
    if Stuck(actions, c) then |QueueOf(After(actions).value, c)| else 0
  }

  ghost predicate Wakes(actions: seq<Action>, c: nat) {
    CanWake(After(actions), c)
  }

  /** While the caller is stuck, some action wakes it or shortens the backlog before its command. */
  lemma {:induction false} StepTowardsWaking(actions: seq<Action>, c: nat) returns (next: seq<Action>)
    requires Stuck(actions, c)
    ensures |next| > |actions| && actions <= next
    ensures Wakes(next, c) || (Stuck(next, c) && Backlog(next, c) < Backlog(actions, c))
  {
    if QueueOf(After(actions).value, c) == [] {
      var a := SomeEventWakes(actions, c);
      next := actions + [a];
    } else {
      var a := NextCommandCanBeTaken(actions, c);
      next := actions + [a];
    }
  }

  /** Receiving the queued commands one after the other leads to an empty queue or to an earlier answer. */
  lemma {:induction false} DrainingWakes(actions: seq<Action>, c: nat, k: nat) returns (all: seq<Action>)
    requires Stuck(actions, c) && Backlog(actions, c) == k
    ensures actions <= all && Wakes(all, c)
    decreases k
  {
    all := StepTowardsWaking(actions, c);
    if !Wakes(all, c) {
      all := DrainingWakes(all, c, Backlog(all, c));
    }
  }

  /** From every reachable state the system can go on so that a waiting caller wakes up: nobody deadlocks. */
  lemma {:induction false} WaitingCallerCanWake(actions: seq<Action>, c: nat) returns (all: seq<Action>)
    requires After(actions).Some?
    requires c in After(actions).value.callers && After(actions).value.callers[c].Awaiting?
    ensures actions <= all && Wakes(all, c)
  {
    UsedNodeIsRunning(actions, c);
    if Stuck(actions, c) {
      all := DrainingWakes(actions, c, Backlog(actions, c));
    } else {
      all := actions;
    }
  }

  ghost function WaitingSlot(node: Node, r: Responder): (slot: Slot)
    ensures Waiters(Replay(node.history).pending, r) > 0
            ==> slot in Replay(node.history).pending && Replay(node.history).pending[slot] == r
  {
    var pending := Replay(node.history).pending;
    if Waiters(pending, r) > 0 then
      OccupiedSlotExists(pending, r);
      var slot :| slot in pending && pending[slot] == r;
      slot
    else QuerySlot(0)
  }

  lemma OccupiedSlotExists(m: map<Slot, Responder>, r: Responder)
    requires Waiters(m, r) > 0
    ensures exists slot :: slot in m && m[slot] == r
  {
  }

  lemma FreeingWakes(node: Node, slot: Slot, r: Responder)
    requires Running(node) && slot in Replay(node.history).pending && Replay(node.history).pending[slot] == r
    ensures Resolved(Select(node, Event(FreeingEvent(slot))), r)
  {
  }

  // ---------------------------------------------------------------- the table

  /** Nodes ever spawned for a TLD are its evictions plus the one in the table, however callers race. */
  lemma {:induction false} SpawnsCountExactly(actions: seq<Action>, tld: string)
    requires After(actions).Some?
    ensures var s := After(actions).value;
            NodesFor(s.nodes, tld) == Evictions(s.table.log, tld) + if tld in s.table.swarms then 1 else 0
  {
    InvariantHolds(actions);
  }

  /** The caller has a channel. */
  ghost predicate UsesChannel(s: System, c: nat) {
    c in s.callers && HasChannel(s.callers[c])
  }

  /** A caller that leaves a lock section with a channel got it by the entry which that section put on the log. */
  lemma LockSectionHandsOut(s: System, c: nat, a: Action)
    requires a == FirstLock(c) || (a.SecondLock? && a.caller == c)
    requires Applicable(s, a) && UsesChannel(Apply(s, a), c)
    ensures var t := Apply(s, a); var p := t.callers[c];
            && |s.table.log| <= p.at && p.at + 1 == |t.table.log|
            && t.table.log[p.at] == HandedOut(p.tld, p.node, s.now)
  {
  }

  lemma ChannelWasHandedOut(actions: seq<Action>, c: nat)
    requires After(actions).Some? && UsesChannel(After(actions).value, c)
    ensures var s := After(actions).value; var p := s.callers[c];
            && HandedTo(s.table.log, p.at, p.tld, p.node)
            && HandoutKept(s.table, s.now, p.at) && SharedChannels(s.table)
  {
    InvariantHolds(actions);
    var s := After(actions).value;
    assert CallerOk(s, s.callers[c]);
    assert HandoutKept(s.table, s.now, s.callers[c].at);
  }

  /** A channel that a caller got at most ten minutes ago is still the mapped one of its TLD. */
  lemma {:induction false} SafetyWindow(actions: seq<Action>, c: nat)
    requires After(actions).Some? && UsesChannel(After(actions).value, c)
    ensures var s := After(actions).value; var p := s.callers[c];
            && HandedTo(s.table.log, p.at, p.tld, p.node)
            && (s.now <= s.table.log[p.at].time + IDLE_TIMEOUT ==>
                  p.tld in s.table.swarms && s.table.swarms[p.tld].node == p.node)
  {
    ChannelWasHandedOut(actions, c);
  }

  /** Two callers of one TLD with no eviction of it between their lock sections use the same node. */
  lemma {:induction false} RacingCallersShareTheChannel(actions: seq<Action>, c: nat, d: nat)
    requires After(actions).Some? && UsesChannel(After(actions).value, c) && UsesChannel(After(actions).value, d)
    requires var s := After(actions).value; var p, q := s.callers[c], s.callers[d];
             && p.tld == q.tld && p.at <= q.at
             && (q.at < |s.table.log| ==> !EvictedBetween(s.table.log, p.tld, p.at, q.at))
    ensures After(actions).value.callers[c].node == After(actions).value.callers[d].node
  {
    ChannelWasHandedOut(actions, c);
    ChannelWasHandedOut(actions, d);
  }

  /** The handle of a mapped TLD is handed out and refreshed; a new one of the spawned node is put in. */
  predicate Refreshes(s: System, t: System, c: nat, tld: string, node: nat) {
    && t.table.swarms == s.table.swarms[tld := Handle(node, s.now)]
    && c in t.callers && t.callers[c].Holding? && t.callers[c].tld == tld && t.callers[c].node == node
  }

  /**
   The first lock section gives a caller the mapped node, with its time stamp refreshed, and
   sends it on to resolve the seed domain if there is none.
   */
  lemma {:induction false} FirstLockSection(s: System, c: nat)
    requires Applicable(s, FirstLock(c))
    ensures var t := Apply(s, FirstLock(c)); var tld := s.callers[c].tld;
            && t.nodes == s.nodes
            && (tld in s.table.swarms ==> Refreshes(s, t, c, tld, s.table.swarms[tld].node))
            && (tld !in s.table.swarms ==> t.table == s.table && t.callers == s.callers[c := Resolving(tld)])
  {
  }

  /**
   The second gives it the node mapped meanwhile, with its time stamp refreshed; otherwise it
   spawns one and gives it that, if the node could be made, and turns the caller away if not.
   */
  lemma {:induction false} SecondLockSection(s: System, c: nat, initOk: bool)
    requires Applicable(s, SecondLock(c, initOk)) && s.table.spawned == |s.nodes|
    ensures var t := Apply(s, SecondLock(c, initOk)); var tld := s.callers[c].tld;
            && (tld in s.table.swarms ==> t.nodes == s.nodes && Refreshes(s, t, c, tld, s.table.swarms[tld].node))
            && (tld !in s.table.swarms && initOk ==>
                  t.nodes == s.nodes + [Node(tld, [], [])] && Refreshes(s, t, c, tld, |s.nodes|))
            && (tld !in s.table.swarms && !initOk ==>
                  t.nodes == s.nodes && t.table == s.table && t.callers == s.callers[c := Gone])
  {
  }

  /** Of two callers that resolve the same seed domain, the one that comes second shares the node of the first. */
  lemma {:induction false} LoserSharesWinnersNode(actions: seq<Action>, c: nat, d: nat, again: bool)
    requires After(actions).Some? && c != d
    requires var s := After(actions).value;
             && c in s.callers && d in s.callers
             && s.callers[c].Resolving? && s.callers[d] == s.callers[c]
    ensures var all := actions + [SecondLock(c, true)] + [SecondLock(d, again)];
            && After(all).Some?
            && UsesChannel(After(all).value, c) && UsesChannel(After(all).value, d)
            && After(all).value.callers[c].node == After(all).value.callers[d].node
            && |After(all).value.nodes| <= |After(actions).value.nodes| + 1
  {
    InvariantHolds(actions);
    var s := After(actions).value;
    Continue(actions, SecondLock(c, true));
    SecondLockSection(s, c, true);
    var t := Apply(s, SecondLock(c, true));
    InvariantHolds(actions + [SecondLock(c, true)]);
    Continue(actions + [SecondLock(c, true)], SecondLock(d, again));
    SecondLockSection(t, d, again);
  }

  /** A collection removes the handles that have been idle for more than 600 seconds, in nanoseconds, and no others. */
  lemma NoIdleHandleAfterCollection(actions: seq<Action>)
    requires After(actions).Some?
    ensures After(actions + [CollectGarbage]).Some?
    ensures var s := After(actions + [CollectGarbage]).value;
            forall tld <- s.table.swarms ::
              s.table.swarms[tld].lastUsed <= s.now <= s.table.swarms[tld].lastUsed + IDLE_TIMEOUT
    ensures var s, t := After(actions).value, After(actions + [CollectGarbage]).value;
            && (forall tld :: tld in t.table.swarms <==>
                  tld in s.table.swarms && s.now <= s.table.swarms[tld].lastUsed + 600_000_000_000)
            && (forall tld <- t.table.swarms :: t.table.swarms[tld] == s.table.swarms[tld])
  {
    Continue(actions, CollectGarbage);
    InvariantHolds(actions);
    CollectIsSound(After(actions).value.table, After(actions).value.now);
  }

  // ---------------------------------------------------------------- the channel is a queue

  /** The commands that a loop has taken, in order. */
  ghost function TakenFrom(h: seq<Input>): seq<Command> {
    if h == [] then []
    else
      var last := h[|h| - 1];
      TakenFrom(h[..|h| - 1]) + if last.Received? then [last.cmd] else []
  }

  /** The commands that callers put on the channel of a node, in order. */
  ghost function PutOn(issued: seq<Issue>, n: nat): seq<Command> {
    if issued == [] then []
    else
      var last := issued[|issued| - 1];
      PutOn(issued[..|issued| - 1], n) + if last.node == n then [last.cmd] else []
  }

  lemma {:induction false} PutOnNone(issued: seq<Issue>, n: nat)
    requires forall i <- issued :: i.node != n
    ensures PutOn(issued, n) == []
  {
    if issued != [] {
      assert issued[|issued| - 1] in issued && forall i <- issued[..|issued| - 1] :: i in issued;
      PutOnNone(issued[..|issued| - 1], n);
    }
  }

  lemma TakenSnoc(h: seq<Input>, i: Input)
    ensures TakenFrom(h + [i]) == TakenFrom(h) + if i.Received? then [i.cmd] else []
  {
    assert (h + [i])[..|h|] == h;
  }

  lemma PutSnoc(issued: seq<Issue>, i: Issue, n: nat)
    ensures PutOn(issued + [i], n) == PutOn(issued, n) + if i.node == n then [i.cmd] else []
  {
    assert (issued + [i])[..|issued|] == issued;
  }

  ghost predicate InOrder(s: System, n: nat)
    requires n < |s.nodes|
  {
    Input.Shutdown !in s.nodes[n].history ==>
      TakenFrom(s.nodes[n].history) + s.nodes[n].queue == PutOn(s.issued, n)
  }

  lemma {:induction false} SendKeepsOrder(s: System, c: nat, cmd: Command, n: nat)
    requires Applicable(s, Send(c, cmd)) && n < |s.nodes| && InOrder(s, n)
    ensures InOrder(Apply(s, Send(c, cmd)), n)
  {
    var m := s.callers[c].node;
    PutSnoc(s.issued, Issue(m, cmd), n);
    if m == n {
      var taken, queue := TakenFrom(s.nodes[n].history), s.nodes[n].queue;
      assert taken + (queue + [cmd]) == (taken + queue) + [cmd];
    }
  }

  lemma {:induction false} ReceiveKeepsOrder(s: System, m: nat, lib: Library, n: nat)
    requires Applicable(s, Receive(m, lib)) && n < |s.nodes| && InOrder(s, n)
    ensures InOrder(Apply(s, Receive(m, lib)), n)
  {
    if m == n {
      var h, queue := s.nodes[n].history, s.nodes[n].queue;
      TakenSnoc(h, Received(queue[0], lib));
      assert TakenFrom(h) + queue == (TakenFrom(h) + [queue[0]]) + queue[1..];
      assert Input.Shutdown in h ==> Input.Shutdown in h + [Received(queue[0], lib)];
    }
  }

  lemma {:induction false} SelectKeepsOrder(s: System, t: System, m: nat, i: Input, n: nat)
    requires m < |s.nodes| == |t.nodes| && n < |s.nodes| && InOrder(s, n)
    requires !i.Received? && t.issued == s.issued
    requires t.nodes == s.nodes[m := t.nodes[m]] && t.nodes[m].history == s.nodes[m].history + [i]
    requires i.Shutdown? || t.nodes[m].queue == s.nodes[m].queue
    ensures InOrder(t, n)
  {
    if m == n {
      TakenSnoc(s.nodes[n].history, i);
      assert i in t.nodes[n].history;
      assert Input.Shutdown in s.nodes[n].history ==> Input.Shutdown in t.nodes[n].history;
    }
  }

  lemma {:induction false} StepKeepsOrder(s: System, a: Action, n: nat)
    requires Applicable(s, a) && n < |s.nodes| && InOrder(s, n)
    ensures n < |Apply(s, a).nodes| && InOrder(Apply(s, a), n)
  {
    var t := Apply(s, a);
    match a {
      case Send(c, cmd) => SendKeepsOrder(s, c, cmd, n);
      case Receive(m, lib) => ReceiveKeepsOrder(s, m, lib, n);
      case Deliver(m, event) => SelectKeepsOrder(s, t, m, Event(event), n);
      case CloseChannel(m) => SelectKeepsOrder(s, t, m, ChannelClosed, n);
      case StopNode(m) => SelectKeepsOrder(s, t, m, Input.Shutdown, n);
      case _ =>
    }
  }

  lemma {:induction false} SpawnedNodeIsEmpty(s: System, a: Action, n: nat)
    requires CallersOk(s) && Applicable(s, a) && |s.nodes| <= n < |Apply(s, a).nodes|
    ensures InOrder(Apply(s, a), n)
  {
    var t := Apply(s, a);
    assert t.issued == s.issued && t.nodes[n].history == [] && t.nodes[n].queue == [];
    PutOnNone(s.issued, n);
  }

  /**
   A node takes the commands in the order in which callers put them on its channel, none
   twice and none left out, unless a shutdown reached it; and at most 32 of them wait.
   */
  lemma {:induction false} CommandsAreTakenInOrder(actions: seq<Action>, n: nat)
    requires After(actions).Some? && n < |After(actions).value.nodes|
    ensures var s := After(actions).value; var node := s.nodes[n];
            && (Input.Shutdown !in node.history ==> TakenFrom(node.history) + node.queue == PutOn(s.issued, n))
            && |node.queue| <= 32
  {
    InvariantHolds(actions);
    assert NodeOk(After(actions).value.nodes[n], n, After(actions).value.issued);
    OrderIsKept(actions, n);
  }

  lemma {:induction false} OrderIsKept(actions: seq<Action>, n: nat)
    requires After(actions).Some? && n < |After(actions).value.nodes|
    ensures InOrder(After(actions).value, n)
  {
    if actions != [] {
      var front, a := actions[..|actions| - 1], actions[|actions| - 1];
      var s := After(front).value;
      if n < |s.nodes| {
        OrderIsKept(front, n);
        StepKeepsOrder(s, a, n);
      } else {
        InvariantHolds(front);
        SpawnedNodeIsEmpty(s, a, n);
      }
    }
  }

  // ---------------------------------------------------------------- the guarantees are not vacuous

  /** A caller can indeed be waiting on a node whose handle the collector has removed. */
  lemma EvictionMidFlight(tld: string) returns (actions: seq<Action>)
    ensures After(actions).Some?
    ensures var s := After(actions).value;
            && tld !in s.table.swarms
            && 0 in s.callers && s.callers[0] == Awaiting(tld, 0, 1, GetRecord(tld, 0))
            && |s.nodes| == 1 && Running(s.nodes[0])
  {
    actions := [];
    Continue(actions, Arrive(0, tld));
    actions := actions + [Arrive(0, tld)];
    Continue(actions, FirstLock(0));
    actions := actions + [FirstLock(0)];
    Continue(actions, SecondLock(0, true));
    actions := actions + [SecondLock(0, true)];
    Continue(actions, Send(0, GetRecord(tld, 0)));
    actions := actions + [Send(0, GetRecord(tld, 0))];
    Continue(actions, Advance(IDLE_TIMEOUT + 1));
    actions := actions + [Advance(IDLE_TIMEOUT + 1)];
    Continue(actions, CollectGarbage);
    actions := actions + [CollectGarbage];
  }

  /** A peer lookup can be lost: looking the same peer up again overwrites its responder. */
  lemma LookupOverwritten(peer: PeerId, text: string)
    ensures var lib := Library(0, Some(peer), true);
            var h := [Received(LookupPeer(text, 0), lib), Received(LookupPeer(text, 1), lib)];
            0 in Replay(h).overwritten && Replay(h).running && FreshIds(h)
  {
    var lib := Library(0, Some(peer), true);
    var first, second := Received(LookupPeer(text, 0), lib), Received(LookupPeer(text, 1), lib);
    var h := [first, second];
    assert h[..1] == [first] && [first][..0] == [];
    assert Replay([first]) == Step(INITIAL, first);
    assert Replay(h) == Step(Replay([first]), second);
    assert Replay([first]).pending == map[DialSlot(peer) := 0];
  }
}
