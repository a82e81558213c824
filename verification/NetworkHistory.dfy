/**
 What a caller can rely on, told from the history of select choices alone.

 `FateAt` follows one responder through a history without any map; the theorems
 show that the three maps of the loop implement it, that no responder is ever
 lost or duplicated, and when one can be dropped.
 */
module NetworkHistory {
  import opened Wrappers
  import opened Network

  // ---------------------------------------------------------------- conservation

  /** In how many slots a responder waits. */
  function Waiters(m: map<Slot, Responder>, x: Responder): nat {
    |set slot | slot in m && m[slot] == x|
  }

  lemma WaitersRemove(m: map<Slot, Responder>, k: Slot, x: Responder)
    requires k in m
    ensures Waiters(m, x) == Waiters(m - {k}, x) + if m[k] == x then 1 else 0
  {
    var before, after := set slot | slot in m && m[slot] == x, set slot | slot in m - {k} && (m - {k})[slot] == x;
    assert after == before - {k};
  }

  lemma WaitersInsert(m: map<Slot, Responder>, k: Slot, v: Responder, x: Responder)
    ensures Waiters(m[k := v], x) + Occupant(m, k)[x] == Waiters(m, x) + if v == x then 1 else 0
  {
    var rest := m - {k};
    assert m[k := v] - {k} == rest;
    WaitersRemove(m[k := v], k, x);
    if k in m {
      WaitersRemove(m, k, x);
    } else {
      assert rest == m;
    }
  }

  /** How often a responder went out of scope unanswered. */
  function Drops(s: NodeState, x: Responder): nat {
    s.overwritten[x] + Waiters(s.lost, x)
  }

  ghost function Recipients(sent: seq<(Responder, Reply)>): multiset<Responder> {
    if sent == [] then multiset{}
    else Recipients(sent[..|sent| - 1]) + multiset{sent[|sent| - 1].0}
  }

  lemma RecipientsSnoc(sent: seq<(Responder, Reply)>, r: Responder, reply: Reply)
    ensures Recipients(sent + [(r, reply)]) == Recipients(sent) + multiset{r}
  {
  }

  lemma {:induction false} SentIsRecipient(sent: seq<(Responder, Reply)>, r: Responder)
    ensures r in Recipients(sent) <==> exists reply :: (r, reply) in sent
  {
    if sent != [] {
      var last := sent[|sent| - 1];
      var front := sent[..|sent| - 1];
      SentIsRecipient(front, r);
      assert sent == front + [last];
      if r in Recipients(sent) && r !in Recipients(front) {
        assert (r, last.1) in sent;
      }
    }
  }

  /** Two replies to one responder count twice. */
  lemma {:induction false} SentTwice(sent: seq<(Responder, Reply)>, r: Responder, a: Reply, b: Reply)
    requires (r, a) in sent && (r, b) in sent && a != b
    ensures Recipients(sent)[r] >= 2
  {
    var last := sent[|sent| - 1];
    var front := sent[..|sent| - 1];
    assert sent == front + [last];
    if (r, a) in front && (r, b) in front {
      SentTwice(front, r, a, b);
    } else {
      assert (r, a) in front || (r, b) in front;
      SentIsRecipient(front, r);
    }
  }

  /** The responders of all commands taken from the channel while the loop ran. */
  ghost function Accepted(h: seq<Input>): multiset<Responder> {
    if h == [] then multiset{}
    else
      var front := h[..|h| - 1];
      var last := h[|h| - 1];
      Accepted(front)
      + if Replay(front).running && last.Received? then multiset{last.cmd.resp} else multiset{}
  }

  /** In how many places of a node a responder is found. */
  ghost function Places(s: NodeState, x: Responder): nat {
    Waiters(s.pending, x) + Recipients(s.sent)[x] + Drops(s, x)
  }

  /**
   Responder conservation: in every history, whatever ids the library issues, each
   accepted responder is pending, answered or dropped, with exact multiplicity.
   */
  lemma {:induction false} ResponderConservation(h: seq<Input>, x: Responder)
    ensures Accepted(h)[x] == Places(Replay(h), x)
  {
    if h != [] {
      var front := h[..|h| - 1];
      ResponderConservation(front, x);
      NothingLostWhileRunning(front);
      StepConserves(Replay(front), h[|h| - 1], x);
    }
  }

  ghost function Taken(s: NodeState, i: Input): multiset<Responder> {
    if s.running && i.Received? then multiset{i.cmd.resp} else multiset{}
  }

  lemma ParkConserves(s: NodeState, slot: Slot, r: Responder, x: Responder)
    ensures Places(Park(s, slot, r), x) == Places(s, x) + if r == x then 1 else 0
  {
    WaitersInsert(s.pending, slot, r, x);
  }

  lemma CompleteConserves(s: NodeState, slot: Slot, reply: Reply, x: Responder)
    ensures Places(Complete(s, slot, reply), x) == Places(s, x)
  {
    if slot in s.pending {
      WaitersRemove(s.pending, slot, x);
      RecipientsSnoc(s.sent, s.pending[slot], reply);
    }
  }

  lemma {:induction false} CommandConserves(s: NodeState, cmd: Command, lib: Library, x: Responder)
    requires s.running
    ensures Places(Step(s, Received(cmd, lib)), x) == Places(s, x) + if cmd.resp == x then 1 else 0
  {
    match SlotOf(cmd, lib) {
      case Some(slot) => ParkConserves(s, slot, cmd.resp, x);
      case None => RecipientsSnoc(s.sent, cmd.resp, IpReply(None));
    }
  }

  lemma EventConserves(s: NodeState, e: SwarmEvent, x: Responder)
    requires s.running
    ensures Places(Step(s, Event(e)), x) == Places(s, x)
  {
    if Completion(e).Some? {
      CompleteConserves(s, Completion(e).value.0, Completion(e).value.1, x);
    }
  }

  lemma {:induction false} NothingLostWhileRunning(h: seq<Input>)
    ensures Replay(h).running ==> Replay(h).lost == map[]
  {
    if h != [] {
      NothingLostWhileRunning(h[..|h| - 1]);
    }
  }

  lemma StepConserves(s: NodeState, i: Input, x: Responder)
    requires s.running ==> s.lost == map[]
    ensures Places(Step(s, i), x) == Places(s, x) + Taken(s, i)[x]
  {
    if s.running {
      match i {
        case Received(cmd, lib) => CommandConserves(s, cmd, lib, x);
        case Event(e) => EventConserves(s, e, x);
        case ChannelClosed => assert Waiters(map[], x) == 0;
        case Shutdown => assert Waiters(map[], x) == 0;
      }
    }
  }

  // ---------------------------------------------------------------- the history specification

  datatype Fate = Waiting | Answered(reply: Reply) | Dropped

  /** What one select choice does to whoever waits in a slot. */
  function Settle(i: Input, slot: Slot): Fate {
    match i
    case Received(cmd, lib) => if SlotOf(cmd, lib) == Some(slot) then Dropped else Waiting
    case Event(e) =>
      (match Completion(e)
       case Some((done, reply)) => if done == slot then Answered(reply) else Waiting
       case None => Waiting)
    case ChannelClosed => Dropped
    case Shutdown => Dropped
  }

  /** The fate, at the end of the history, of the command received at position `i`. */
  function FateAt(h: seq<Input>, i: nat): Fate
    requires i < |h| && h[i].Received?
  {
    var slot := SlotOf(h[i].cmd, h[i].lib);
    if slot.None? then Answered(IpReply(None))
    else if |h| == i + 1 then Waiting
    else
      var earlier := FateAt(h[..|h| - 1], i);
      if earlier.Waiting? then Settle(h[|h| - 1], slot.value) else earlier
  }

  predicate IsStop(i: Input) {
    i.ChannelClosed? || i.Shutdown?
  }

  predicate NoStop(h: seq<Input>) {
    forall i <- h :: !IsStop(i)
  }

  lemma {:induction false} RunningMeansNoStop(h: seq<Input>)
    ensures Replay(h).running <==> NoStop(h)
  {
    if h != [] {
      var front := h[..|h| - 1];
      var last := h[|h| - 1];
      RunningMeansNoStop(front);
      assert h == front + [last] && last in h;
      assert forall i <- front :: i in h;
    }
  }

  /** The fate is decided by the first choice that settles the slot. */
  lemma {:induction false} FateIsFirstSettlement(h: seq<Input>, i: nat, slot: Slot)
    requires i < |h| && h[i].Received? && SlotOf(h[i].cmd, h[i].lib) == Some(slot)
    ensures FateAt(h, i).Waiting? <==> forall j :: i < j < |h| ==> Settle(h[j], slot).Waiting?
    ensures forall j :: i < j < |h| && !Settle(h[j], slot).Waiting?
                        && (forall k :: i < k < j ==> Settle(h[k], slot).Waiting?)
                        ==> FateAt(h, i) == Settle(h[j], slot)
  {
    if |h| > i + 1 {
      var front := h[..|h| - 1];
      FateIsFirstSettlement(front, i, slot);
      assert forall j :: 0 <= j < |front| ==> front[j] == h[j];
    }
  }

  /**
   The maps implement the history specification: the responder of a command received
   while the loop ran is in its slot, among the replies or among the dropped ones
   according to its fate.
   */
  lemma {:induction false} LoopRefinesHistory(h: seq<Input>, i: nat)
    requires i < |h| && h[i].Received? && NoStop(h[..i])
    ensures var s := Replay(h); var r := h[i].cmd.resp; var slot := SlotOf(h[i].cmd, h[i].lib);
            match FateAt(h, i)
            case Waiting => s.running && slot.Some? && slot.value in s.pending && s.pending[slot.value] == r
            case Answered(reply) => (r, reply) in s.sent
            case Dropped => Drops(s, r) > 0
  {
    var front := h[..|h| - 1];
    if |h| == i + 1 {
      assert front == h[..i];
      RunningMeansNoStop(front);
    } else {
      assert front[..i] == h[..i];
      LoopRefinesHistory(front, i);
      NothingLostWhileRunning(front);
      StepKeepsOutputs(Replay(front), h[|h| - 1]);
      if SlotOf(h[i].cmd, h[i].lib).Some? && FateAt(front, i).Waiting? {
        StepSettles(Replay(front), h[|h| - 1], SlotOf(h[i].cmd, h[i].lib).value);
      }
    }
  }

  lemma StepKeepsOutputs(s: NodeState, i: Input)
    requires s.running ==> s.lost == map[]
    ensures s.sent <= Step(s, i).sent && forall x :: Drops(s, x) <= Drops(Step(s, i), x)
  {
  }

  lemma StepSettles(s: NodeState, i: Input, slot: Slot)
    requires s.running && slot in s.pending
    ensures var r := s.pending[slot];
            match Settle(i, slot)
            case Waiting => var t := Step(s, i); t.running && slot in t.pending && t.pending[slot] == r
            case Answered(reply) => (r, reply) in Step(s, i).sent
            case Dropped => Drops(Step(s, i), r) > 0
  {
    WaitersRemove(s.pending, slot, s.pending[slot]);
    if Settle(i, slot).Answered? {
      var t := Step(s, i);
      assert t.sent[|s.sent|] == (s.pending[slot], Settle(i, slot).reply);
    }
  }

  /** Conversely, whoever occupies a slot was put there by a command that is still waiting. */
  lemma {:induction false} OccupantWasReceived(h: seq<Input>, slot: Slot) returns (i: nat)
    requires slot in Replay(h).pending
    ensures i < |h| && h[i].Received? && SlotOf(h[i].cmd, h[i].lib) == Some(slot)
    ensures h[i].cmd.resp == Replay(h).pending[slot]
    ensures FateAt(h, i).Waiting? && NoStop(h)
  {
    var front := h[..|h| - 1];
    var last := h[|h| - 1];
    RunningMeansNoStop(front);
    RunningMeansNoStop(h);
    if last.Received? && SlotOf(last.cmd, last.lib) == Some(slot) && Replay(front).running {
      i := |h| - 1;
    } else {
      i := OccupantWasReceived(front, slot);
    }
  }

  /** The part of the history specification that names each responder once. */
  ghost predicate DistinctResponders(h: seq<Input>) {
    forall r <- Accepted(h) :: Accepted(h)[r] == 1
  }

  /** With one responder per command, each is in exactly one place and answered at most once. */
  lemma {:induction false} ExactlyOneFate(h: seq<Input>, i: nat)
    requires i < |h| && h[i].Received? && NoStop(h[..i]) && DistinctResponders(h)
    ensures var s := Replay(h); var r := h[i].cmd.resp; var f := FateAt(h, i);
            && Waiters(s.pending, r) == (if f.Waiting? then 1 else 0)
            && Recipients(s.sent)[r] == (if f.Answered? then 1 else 0)
            && Drops(s, r) == (if f.Dropped? then 1 else 0)
            && forall reply :: (r, reply) in s.sent <==> f == Answered(reply)
  {
    var s := Replay(h);
    var r := h[i].cmd.resp;
    var f := FateAt(h, i);
    ResponderConservation(h, r);
    LoopRefinesHistory(h, i);
    ReceivedIsAccepted(h, i);
    SentIsRecipient(s.sent, r);
    if f.Waiting? {
      WaitersRemove(s.pending, SlotOf(h[i].cmd, h[i].lib).value, r);
    }
    forall reply | (r, reply) in s.sent
      ensures f == Answered(reply)
    {
      if f.Answered? && f.reply != reply {
        SentTwice(s.sent, r, f.reply, reply);
      }
    }
  }

  lemma {:induction false} ReceivedIsAccepted(h: seq<Input>, i: nat)
    requires i < |h| && h[i].Received? && NoStop(h[..i])
    ensures h[i].cmd.resp in Accepted(h)
  {
    var front := h[..|h| - 1];
    if i == |h| - 1 {
      assert front == h[..i];
      RunningMeansNoStop(front);
    } else {
      assert front[..i] == h[..i];
      ReceivedIsAccepted(front, i);
    }
  }

  // ---------------------------------------------------------------- what the library guarantees

  /** libp2p never issues the same query id or the same request id twice. */
  ghost predicate FreshIds(h: seq<Input>) {
    forall i, j :: 0 <= i < j < |h| && h[i].Received? && h[j].Received?
                   && SlotOf(h[i].cmd, h[i].lib).Some?
                   && SlotOf(h[i].cmd, h[i].lib) == SlotOf(h[j].cmd, h[j].lib)
                   ==> SlotOf(h[i].cmd, h[i].lib).value.DialSlot?
  }

  /** The two things that drop a waiting responder: the loop ends, or the very same peer is looked up again. */
  predicate Clobbers(received: Input, later: Input) {
    || IsStop(later)
    || (received.Received? && received.cmd.LookupPeer?
        && later.Received? && later.cmd.LookupPeer?
        && later.lib.parsed == received.lib.parsed && later.lib.dialOk)
  }

  lemma ClobberedIsDropped(h: seq<Input>, i: nat, j: nat, slot: Slot)
    requires i < j < |h| && h[i].Received? && FreshIds(h) && SlotOf(h[i].cmd, h[i].lib) == Some(slot)
    ensures Settle(h[j], slot).Dropped? <==> Clobbers(h[i], h[j])
  {
  }

  /** Position `j` is the first to settle the slot of the command at `i`, and it drops the responder. */
  ghost predicate ClobberedFirst(h: seq<Input>, i: nat, j: nat, slot: Slot) {
    i < j < |h| && Clobbers(h[i], h[j]) && forall k :: i < k < j ==> Settle(h[k], slot).Waiting?
  }

  /** A responder is dropped exactly when one of them comes before anything else settles its slot. */
  lemma DroppedExactlyWhenClobbered(h: seq<Input>, i: nat, slot: Slot)
    requires i < |h| && h[i].Received? && FreshIds(h) && SlotOf(h[i].cmd, h[i].lib) == Some(slot)
    ensures FateAt(h, i).Dropped? <==> exists j: nat :: ClobberedFirst(h, i, j, slot)
  {
    FateIsFirstSettlement(h, i, slot);
    if FateAt(h, i).Dropped? {
      var j := FirstSettlement(h, i, slot, |h|);
      ClobberedIsDropped(h, i, j, slot);
      assert ClobberedFirst(h, i, j, slot);
    }
    if j: nat :| ClobberedFirst(h, i, j, slot) {
      ClobberedIsDropped(h, i, j, slot);
    }
  }

  lemma {:induction false} FirstSettlement(h: seq<Input>, i: nat, slot: Slot, n: nat) returns (j: nat)
    requires i < n <= |h| && exists k :: i < k < n && !Settle(h[k], slot).Waiting?
    ensures i < j < n && !Settle(h[j], slot).Waiting?
    ensures forall k :: i < k < j ==> Settle(h[k], slot).Waiting?
  {
    if exists k :: i < k < n - 1 && !Settle(h[k], slot).Waiting? {
      j := FirstSettlement(h, i, slot, n - 1);
    } else {
      j := n - 1;
    }
  }

  /** The first choice that settles a slot decides, if the loop was still running then. */
  lemma FirstCompletionDecides(h: seq<Input>, i: nat, j: nat, slot: Slot, reply: Reply)
    requires i < j < |h| && NoStop(h[..j])
    requires h[i].Received? && SlotOf(h[i].cmd, h[i].lib) == Some(slot)
    requires Settle(h[j], slot) == Answered(reply)
    requires forall k :: i < k < j ==> Settle(h[k], slot).Waiting?
    ensures FateAt(h, i) == Answered(reply) && (h[i].cmd.resp, reply) in Replay(h).sent
  {
    FateIsFirstSettlement(h, i, slot);
    assert forall x <- h[..i] :: x in h[..j];
    LoopRefinesHistory(h, i);
  }

  /** And an answered command that had a slot was answered by an event, the first to settle it. */
  lemma AnswerCameFromEvent(h: seq<Input>, i: nat, slot: Slot, reply: Reply) returns (j: nat)
    requires i < |h| && h[i].Received? && SlotOf(h[i].cmd, h[i].lib) == Some(slot)
    requires FateAt(h, i) == Answered(reply)
    ensures i < j < |h| && h[j].Event? && Completion(h[j].event).Some?
    ensures Completion(h[j].event).value.0 == slot && Completion(h[j].event).value.1 == reply
    ensures forall k :: i < k < j ==> Settle(h[k], slot).Waiting?
  {
    FateIsFirstSettlement(h, i, slot);
    j := FirstSettlement(h, i, slot, |h|);
    assert Settle(h[j], slot) == Answered(reply);
  }

  /** Under fresh ids only an event settles a query or a request, unless the loop ends. */
  lemma OnlyEventsSettle(h: seq<Input>, i: nat, j: nat, k: nat, slot: Slot)
    requires i < k < j <= |h| && FreshIds(h) && NoStop(h[..j]) && !slot.DialSlot?
    requires h[i].Received? && SlotOf(h[i].cmd, h[i].lib) == Some(slot)
    requires h[k].Event? ==> Completion(h[k].event).None? || Completion(h[k].event).value.0 != slot
    ensures Settle(h[k], slot).Waiting?
  {
    assert h[..j][k] == h[k] && h[..j][k] in h[..j];
  }

  /**
   A record query is answered by the first progress event that carries its id, with
   the record that event found or with nothing; what comes later changes nothing.
   */
  lemma GetRecordAnswer(h: seq<Input>, i: nat, j: nat)
    requires i < j < |h| && FreshIds(h) && NoStop(h[..j])
    requires h[i].Received? && h[i].cmd.GetRecord?
    requires h[j].Event? && h[j].event.QueryProgressed? && h[j].event.queryId == h[i].lib.id
    requires forall k :: i < k < j && h[k].Event? && h[k].event.QueryProgressed?
                         ==> h[k].event.queryId != h[i].lib.id
    ensures var found := match h[j].event.result case FoundRecord(v) => Some(v) case OtherResult => None;
            && FateAt(h, i) == Answered(RecordReply(found))
            && (h[i].cmd.resp, RecordReply(found)) in Replay(h).sent
  {
    var slot := QuerySlot(h[i].lib.id);
    var found := match h[j].event.result case FoundRecord(v) => Some(v) case OtherResult => None;
    forall k | i < k < j
      ensures Settle(h[k], slot).Waiting?
    {
      OnlyEventsSettle(h, i, j, k, slot);
    }
    FirstCompletionDecides(h, i, j, slot, RecordReply(found));
  }

  /** The same for a proxy request: the first response or outbound failure with its id decides. */
  lemma ProxyRequestAnswer(h: seq<Input>, i: nat, j: nat)
    requires i < j < |h| && FreshIds(h) && NoStop(h[..j])
    requires h[i].Received? && h[i].cmd.SendProxyRequest?
    requires h[j].Event? && ConcernsRequest(h[j].event, h[i].lib.id)
    requires forall k :: i < k < j && h[k].Event? ==> !ConcernsRequest(h[k].event, h[i].lib.id)
    ensures var reply := if h[j].event.ResponseReceived? then Some(h[j].event.response) else None;
            && FateAt(h, i) == Answered(ProxyReply(reply))
            && (h[i].cmd.resp, ProxyReply(reply)) in Replay(h).sent
  {
    var slot := RequestSlot(h[i].lib.id);
    var reply := if h[j].event.ResponseReceived? then Some(h[j].event.response) else None;
    forall k | i < k < j
      ensures Settle(h[k], slot).Waiting?
    {
      OnlyEventsSettle(h, i, j, k, slot);
    }
    FirstCompletionDecides(h, i, j, slot, ProxyReply(reply));
  }

  predicate ConcernsRequest(e: SwarmEvent, id: nat) {
    (e.ResponseReceived? && e.requestId == id) || (e.OutboundFailure? && e.failedId == id)
  }

  /**
   A peer lookup whose dial started is answered by the first event about that peer, with the
   last IP component of the remote address or with nothing, unless it was overwritten before.
   */
  lemma LookupAnswer(h: seq<Input>, i: nat, j: nat, peer: PeerId)
    requires i < j < |h| && FreshIds(h) && NoStop(h[..j])
    requires h[i].Received? && h[i].cmd.LookupPeer? && h[i].lib.dialOk && h[i].lib.parsed == Some(peer)
    requires h[j].Event? && ConcernsPeer(h[j].event, peer)
    requires forall k :: i < k < j ==> !Clobbers(h[i], h[k]) && (h[k].Event? ==> !ConcernsPeer(h[k].event, peer))
    ensures var ip := if h[j].event.ConnectionEstablished? then LastIp(h[j].event.remote) else None;
            && FateAt(h, i) == Answered(IpReply(ip))
            && (h[i].cmd.resp, IpReply(ip)) in Replay(h).sent
  {
    var slot := DialSlot(peer);
    var ip := if h[j].event.ConnectionEstablished? then LastIp(h[j].event.remote) else None;
    forall k | i < k < j
      ensures Settle(h[k], slot).Waiting?
    {
      ClobberedIsDropped(h, i, k, slot);
    }
    FirstCompletionDecides(h, i, j, slot, IpReply(ip));
  }

  predicate ConcernsPeer(e: SwarmEvent, peer: PeerId) {
    || (e.ConnectionEstablished? && e.peer == peer)
    || (e.OutgoingConnectionError? && e.failedPeer == Some(peer))
  }

  /** The event at `j` is the first about the peer, before any clobber, and carries this address. */
  ghost predicate AddressArrives(h: seq<Input>, i: nat, j: nat, peer: PeerId, ip: Option<IpAddr>) {
    && i < j < |h| && h[j].Event? && ConcernsPeer(h[j].event, peer)
    && ip == (if h[j].event.ConnectionEstablished? then LastIp(h[j].event.remote) else None)
    && forall k :: i < k < j ==> !Clobbers(h[i], h[k]) && (h[k].Event? ==> !ConcernsPeer(h[k].event, peer))
  }

  lemma {:induction false} AnswerIsArrivedAddress(h: seq<Input>, i: nat, peer: PeerId, ip: Option<IpAddr>)
    returns (j: nat)
    requires i < |h| && h[i].Received? && h[i].cmd.LookupPeer? && FreshIds(h)
    requires h[i].lib.parsed == Some(peer) && h[i].lib.dialOk && FateAt(h, i) == Answered(IpReply(ip))
    ensures AddressArrives(h, i, j, peer, ip)
  {
    var slot := DialSlot(peer);
    j := AnswerCameFromEvent(h, i, slot, IpReply(ip));
    forall k | i < k < j
      ensures !Clobbers(h[i], h[k]) && (h[k].Event? ==> !ConcernsPeer(h[k].event, peer))
    {
      ClobberedIsDropped(h, i, k, slot);
      assert Settle(h[k], slot).Waiting?;
    }
  }

  lemma {:induction false} ArrivedAddressIsAnswer(h: seq<Input>, i: nat, j: nat, peer: PeerId, ip: Option<IpAddr>)
    requires i < |h| && h[i].Received? && h[i].cmd.LookupPeer? && FreshIds(h)
    requires h[i].lib.parsed == Some(peer) && h[i].lib.dialOk && AddressArrives(h, i, j, peer, ip)
    ensures FateAt(h, i) == Answered(IpReply(ip))
  {
    var slot := DialSlot(peer);
    forall k | i < k < j
      ensures Settle(h[k], slot).Waiting?
    {
      ClobberedIsDropped(h, i, k, slot);
    }
    FateIsFirstSettlement(h, i, slot);
  }

  /** The answer to a lookup: nothing at once if no dial starts, else what the first event about the peer says. */
  lemma {:induction false} LookupAnswerExactly(h: seq<Input>, i: nat, ip: Option<IpAddr>)
    requires i < |h| && h[i].Received? && h[i].cmd.LookupPeer? && FreshIds(h)
    ensures FateAt(h, i) == Answered(IpReply(ip)) <==>
            if h[i].lib.parsed.Some? && h[i].lib.dialOk
            then exists j: nat :: AddressArrives(h, i, j, h[i].lib.parsed.value, ip)
            else ip == None
  {
    if h[i].lib.parsed.Some? && h[i].lib.dialOk {
      var peer := h[i].lib.parsed.value;
      if FateAt(h, i) == Answered(IpReply(ip)) {
        var j := AnswerIsArrivedAddress(h, i, peer, ip);
      }
      if j: nat :| AddressArrives(h, i, j, peer, ip) {
        ArrivedAddressIsAnswer(h, i, j, peer, ip);
      }
    }
  }

  /** Events that concern no query, request or dial answer nobody and change nothing. */
  lemma SilentEvent(h: seq<Input>, e: SwarmEvent)
    requires e.RequestReceived? || e.OtherEvent? || e == OutgoingConnectionError(None)
    ensures Replay(h + [Event(e)]) == Replay(h)
  {
    assert (h + [Event(e)])[..|h|] == h;
  }

  /** What follows depends on the past only through the state it led to. */
  lemma {:induction false} SameStateSameFuture(a: seq<Input>, b: seq<Input>, after: seq<Input>)
    requires Replay(a) == Replay(b)
    ensures Replay(a + after) == Replay(b + after)
    decreases |after|
  {
    if after == [] {
      assert a + after == a && b + after == b;
    } else {
      var n := |after| - 1;
      SameStateSameFuture(a, b, after[..n]);
      assert (a + after)[..|a + after| - 1] == a + after[..n];
      assert (b + after)[..|b + after| - 1] == b + after[..n];
    }
  }

  /** An event whose id nobody waits for changes nothing, wherever it arrives. */
  lemma ForeignEventIgnored(before: seq<Input>, e: SwarmEvent, after: seq<Input>)
    requires Completion(e).None? || Completion(e).value.0 !in Replay(before).pending
    ensures Replay(before + [Event(e)] + after) == Replay(before + after)
  {
    assert (before + [Event(e)])[..|before|] == before;
    SameStateSameFuture(before + [Event(e)], before, after);
  }

  /** If every slot ever taken is completed or the loop ends afterwards, the three maps end empty. */
  lemma DrainedTrace(h: seq<Input>)
    requires forall i :: 0 <= i < |h| && h[i].Received? && SlotOf(h[i].cmd, h[i].lib).Some?
                         ==> exists j :: i < j < |h| && h[j].Event? && Completion(h[j].event).Some?
                                         && Completion(h[j].event).value.0 == SlotOf(h[i].cmd, h[i].lib).value
    ensures Replay(h).pending == map[]
  {
    if slot :| slot in Replay(h).pending {
      var i := OccupantWasReceived(h, slot);
      FateIsFirstSettlement(h, i, slot);
    }
  }
}
