/**
 The counterpart of "eviction never hurts a user": eviction frees the node.  A node without
 senders never gets one again, and a node that left the table can end once its users are gone.
 */
module NodeRelease {
  import opened Wrappers
  import opened Network
  import opened NetworkHistory
  import opened SwarmManager
  import opened AtlasSystem
  import opened AtlasGuarantees

  /** The last step of a longer run. */
  lemma LastStep(actions: seq<Action>, more: seq<Action>)
    requires more != [] && After(actions + more).Some?
    ensures var front, a := actions + more[..|more| - 1], more[|more| - 1];
            && After(front).Some? && Enabled(After(front).value, a)
            && After(actions + more).value == Apply(After(front).value, a)
  {
    assert (actions + more)[..|actions + more| - 1] == actions + more[..|more| - 1];
  }

  /** A node without a sender never has one again, whatever happens later. */
  lemma {:induction false} NoSenderForGood(actions: seq<Action>, more: seq<Action>, n: nat)
    requires After(actions).Some? && After(actions + more).Some?
    requires n < |After(actions).value.nodes| && !HasSender(After(actions).value, n)
    ensures n < |After(actions + more).value.nodes| && !HasSender(After(actions + more).value, n)
  {
    if more == [] {
      assert actions + more == actions;
    } else {
      LastStep(actions, more);
      var front, a := actions + more[..|more| - 1], more[|more| - 1];
      NoSenderForGood(actions, more[..|more| - 1], n);
      InvariantHolds(front);
      var s := After(front).value;
      HistoryGrows(s, a, n);
      if HasSender(Apply(s, a), n) {
        SendersComeFromSenders(s, a, n);
      }
    }
  }

  /** A loop that has ended never runs again. */
  lemma {:induction false} StoppedForGood(actions: seq<Action>, more: seq<Action>, n: nat)
    requires After(actions).Some? && After(actions + more).Some?
    requires n < |After(actions).value.nodes| && !Running(After(actions).value.nodes[n])
    ensures n < |After(actions + more).value.nodes| && !Running(After(actions + more).value.nodes[n])
  {
    if more == [] {
      assert actions + more == actions;
    } else {
      LastStep(actions, more);
      var front, a := actions + more[..|more| - 1], more[|more| - 1];
      StoppedForGood(actions, more[..|more| - 1], n);
      HistoryGrows(After(front).value, a, n);
      StoppedStays(After(front).value.nodes[n].history, Selected(After(front).value, a, n));
    }
  }

  lemma StoppedStays(h: seq<Input>, more: seq<Input>)
    requires !Replay(h).running
    ensures !Replay(h + more).running
  {
    RunningMeansNoStop(h);
    RunningMeansNoStop(h + more);
    assert forall i <- h :: i in h + more;
  }

  // ---------------------------------------------------------------- an evicted node can end

  ghost predicate Mapped(s: System, n: nat) {
    exists tld :: tld in s.table.swarms && s.table.swarms[tld].node == n
  }

  ghost function Users(s: System, n: nat): set<nat> {
    set c | c in s.callers && Holds(s.callers[c], n)
  }

  /** What it takes to end a node: its users leave, it takes what is queued, and finds its channel closed. */
  predicate Releases(a: Action, n: nat) {
    a.Leave? || (a.Receive? && a.node == n) || a == CloseChannel(n)
  }

  /** A continuation of those actions only. */
  predicate OnlyReleases(actions: seq<Action>, all: seq<Action>, n: nat) {
    actions <= all && forall i :: |actions| <= i < |all| ==> Releases(all[i], n)
  }

  lemma WithoutUsers(s: System, n: nat)
    requires !Mapped(s, n) && Users(s, n) == {}
    ensures !HasSender(s, n)
  {
    assert forall c <- s.callers :: Holds(s.callers[c], n) ==> c in Users(s, n);
  }

  ghost predicate Live(actions: seq<Action>, n: nat) {
    After(actions).Some? && n < |After(actions).value.nodes| && Running(After(actions).value.nodes[n])
  }

  /** The node runs on, but is no longer in the table. */
  ghost predicate Evicted(actions: seq<Action>, n: nat) {
    Live(actions, n) && !Mapped(After(actions).value, n)
  }

  /** Nor has any caller its sender. */
  ghost predicate Unused(actions: seq<Action>, n: nat) {
    Live(actions, n) && !HasSender(After(actions).value, n)
  }

  ghost function UserCount(actions: seq<Action>, n: nat): nat {
    if Live(actions, n) then |Users(After(actions).value, n)| else 0
  }

  ghost function QueueLength(actions: seq<Action>, n: nat): nat {
    if Live(actions, n) then |After(actions).value.nodes[n].queue| else 0
  }

  /** The continuation ends the node because its channel is closed, and by nothing else. */
  ghost predicate Frees(actions: seq<Action>, all: seq<Action>, n: nat) {
    && OnlyReleases(actions, all, n)
    && |all| > |actions| && all[|all| - 1] == CloseChannel(n)
    && After(all).Some? && n < |After(all).value.nodes| && !Running(After(all).value.nodes[n])
  }

  lemma OneMoreRelease(actions: seq<Action>, a: Action, all: seq<Action>, n: nat)
    requires Releases(a, n) && Frees(actions + [a], all, n)
    ensures Frees(actions, all, n)
  {
    assert all[|actions|] == a;
  }

  /** Taking a command keeps the loop running. */
  lemma TakingRuns(node: Node, cmd: Network.Command, lib: Library)
    requires Running(node)
    ensures Running(Select(node, Received(cmd, lib)))
  {
    assert (node.history + [Received(cmd, lib)])[..|node.history|] == node.history;
  }

  lemma ClosingStops(node: Node)
    ensures !Running(Select(node, ChannelClosed))
  {
    RunningMeansNoStop(node.history + [ChannelClosed]);
    assert ChannelClosed in node.history + [ChannelClosed];
  }

  lemma {:induction false} TakeNext(actions: seq<Action>, n: nat) returns (a: Action)
    requires Unused(actions, n) && QueueLength(actions, n) > 0
    ensures Releases(a, n) && Unused(actions + [a], n) && QueueLength(actions + [a], n) < QueueLength(actions, n)
  {
    InvariantHolds(actions);
    var s := After(actions).value;
    assert NodeOk(s.nodes[n], n, s.issued);
    var lib := Library(UnusedId(s.nodes[n].history), None, false);
    UnusedIdIsFresh(s.nodes[n].history, s.nodes[n].queue[0]);
    TakingRuns(s.nodes[n], s.nodes[n].queue[0], lib);
    a := Receive(n, lib);
    Continue(actions, a);
    NoSenderForGood(actions, [a], n);
  }

  lemma {:induction false} CloseNow(actions: seq<Action>, n: nat)
    requires Unused(actions, n) && QueueLength(actions, n) == 0
    ensures Frees(actions, actions + [CloseChannel(n)], n)
  {
    Continue(actions, CloseChannel(n));
    ClosingStops(After(actions).value.nodes[n]);
  }

  /** Without a sender the loop can take what is queued, and then ends because its channel is closed. */
  lemma {:induction false} UnusedNodeCanEnd(actions: seq<Action>, n: nat) returns (all: seq<Action>)
    requires Unused(actions, n)
    ensures Frees(actions, all, n)
    decreases QueueLength(actions, n)
  {
    if QueueLength(actions, n) == 0 {
      CloseNow(actions, n);
      all := actions + [CloseChannel(n)];
    } else {
      var a := TakeNext(actions, n);
      all := UnusedNodeCanEnd(actions + [a], n);
      OneMoreRelease(actions, a, all, n);
    }
  }

  lemma {:induction false} UserLeaves(actions: seq<Action>, n: nat) returns (a: Action)
    requires Evicted(actions, n) && UserCount(actions, n) > 0
    ensures Releases(a, n) && Evicted(actions + [a], n) && UserCount(actions + [a], n) < UserCount(actions, n)
  {
    var s := After(actions).value;
    var c :| c in Users(s, n);
    a := Leave(c);
    Continue(actions, a);
    assert Users(Apply(s, a), n) == Users(s, n) - {c};
  }

  /** From every reachable state, a running node that left the table can end, once its users are gone. */
  lemma {:induction false} EvictedNodeCanEnd(actions: seq<Action>, n: nat) returns (all: seq<Action>)
    requires Evicted(actions, n)
    ensures Frees(actions, all, n)
    decreases UserCount(actions, n)
  {
    if UserCount(actions, n) == 0 {
      WithoutUsers(After(actions).value, n);
      all := UnusedNodeCanEnd(actions, n);
    } else {
      var a := UserLeaves(actions, n);
      all := EvictedNodeCanEnd(actions + [a], n);
      OneMoreRelease(actions, a, all, n);
    }
  }
}
