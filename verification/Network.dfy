/**
 The event loop of one libp2p node (`KineticAtlasNode::run`).

 The loop selects between commands that callers put on a channel and events of
 the swarm.  Here one choice of `select!` is an `Input`; what the library answers
 while a command is handled (the id it issues, the parse of a peer string, whether
 it accepts a dial) is part of the input and is arbitrary.
 */
module Network {
  import opened Wrappers

  newtype Byte = x: int | 0 <= x < 256
  type Bytes = seq<Byte>
  type PeerId = Bytes

  /** The identity of one oneshot sender. */
  type Responder = nat

  datatype IpAddr = V4(bits: nat) | V6(bits: nat)

  /** One component of a multiaddress. */
  datatype Protocol = Ip(address: IpAddr) | OtherProtocol

  datatype ProxyRequest = ProxyRequest(verb: string, path: string, headers: seq<(string, string)>, body: Bytes)

  datatype ProxyResponse = ProxyResponse(status: nat, headers: seq<(string, string)>, body: Bytes)

  datatype Command =
    | GetRecord(domain: string, resp: Responder)
    | LookupPeer(peerIdStr: string, resp: Responder)
    | SendProxyRequest(peer: PeerId, request: ProxyRequest, resp: Responder)

  /** What libp2p answers while a command is handled. */
  datatype Library = Library(id: nat, parsed: Option<PeerId>, dialOk: bool)

  datatype QueryResult = FoundRecord(value: Bytes) | OtherResult

  datatype SwarmEvent =
    | QueryProgressed(queryId: nat, result: QueryResult)
    | ResponseReceived(requestId: nat, response: ProxyResponse)
    | RequestReceived
    | OutboundFailure(failedId: nat)
    | ConnectionEstablished(peer: PeerId, remote: seq<Protocol>)
    | OutgoingConnectionError(failedPeer: Option<PeerId>)
    | OtherEvent

  /** One choice of `select!`; `Shutdown` is the surrounding task being cancelled. */
  datatype Input =
    | Received(cmd: Command, lib: Library)
    | ChannelClosed
    | Event(event: SwarmEvent)
    | Shutdown

  datatype Reply =
    | RecordReply(record: Option<Bytes>)
    | IpReply(ip: Option<IpAddr>)
    | ProxyReply(response: Option<ProxyResponse>)

  /** Where a responder waits: the three maps of the loop, told apart by constructor. */
  datatype Slot = QuerySlot(id: nat) | DialSlot(peer: PeerId) | RequestSlot(id: nat)

  /**
   Who waits, the replies sent in order, who was pushed out of a slot by `insert`, who was
   still waiting when the maps were dropped at the end, and whether the loop still runs.
   */
  datatype NodeState = NodeState(
    pending: map<Slot, Responder>,
    sent: seq<(Responder, Reply)>,
    overwritten: multiset<Responder>,
    lost: map<Slot, Responder>,
    running: bool)

  const INITIAL: NodeState := NodeState(map[], [], multiset{}, map[], true)

  // ---------------------------------------------------------------- what each input means

  /** The slot a command waits in, or `None` when it is answered on the spot. */
  function SlotOf(cmd: Command, lib: Library): Option<Slot> {
    match cmd
    case GetRecord(_, _) => Some(QuerySlot(lib.id))
    case LookupPeer(_, _) =>
      if lib.parsed.Some? && lib.dialOk then Some(DialSlot(lib.parsed.value)) else None
    case SendProxyRequest(_, _, _) => Some(RequestSlot(lib.id))
  }

  /** The slot an event completes, with the reply it carries. */
  function Completion(e: SwarmEvent): Option<(Slot, Reply)> {
    match e
    case QueryProgressed(id, FoundRecord(value)) => Some((QuerySlot(id), RecordReply(Some(value))))
    case QueryProgressed(id, OtherResult) => Some((QuerySlot(id), RecordReply(None)))
    case ResponseReceived(id, response) => Some((RequestSlot(id), ProxyReply(Some(response))))
    case OutboundFailure(id) => Some((RequestSlot(id), ProxyReply(None)))
    case ConnectionEstablished(peer, remote) => Some((DialSlot(peer), IpReply(LastIp(remote))))
    case OutgoingConnectionError(Some(peer)) => Some((DialSlot(peer), IpReply(None)))
    case _ => None
  }

  /** The last IP component of a multiaddress, if it has one. */
  function LastIp(remote: seq<Protocol>): (ip: Option<IpAddr>)
    ensures ip.None? <==> forall p <- remote :: p.OtherProtocol?
    ensures ip.Some? ==> exists i :: 0 <= i < |remote| && remote[i] == Ip(ip.value)
                                     && forall j :: i < j < |remote| ==> remote[j].OtherProtocol?
  {
    if remote == [] then None
    else
      var front := remote[..|remote| - 1];
      var last := remote[|remote| - 1];
      assert remote == front + [last] && last in remote;
      match last
      case Ip(address) => Some(address)
      case OtherProtocol => LastIp(front)
  }

  function Occupant(m: map<Slot, Responder>, slot: Slot): multiset<Responder> {
    if slot in m then multiset{m[slot]} else multiset{}
  }

  /** `HashMap::insert`: a previous occupant of the slot is overwritten, and so dropped. */
  function Park(s: NodeState, slot: Slot, r: Responder): NodeState {
    s.(pending := s.pending[slot := r], overwritten := s.overwritten + Occupant(s.pending, slot))
  }

  function Complete(s: NodeState, slot: Slot, reply: Reply): NodeState {
    if slot in s.pending then
      s.(pending := s.pending - {slot}, sent := s.sent + [(s.pending[slot], reply)])
    else s
  }

  /** Leaving the loop, or being cancelled, drops the three maps. */
  function Exit(s: NodeState): NodeState {
    NodeState(map[], s.sent, s.overwritten, s.pending, false)
  }

  function Step(s: NodeState, i: Input): NodeState {
    if !s.running then s else
    match i
    case Received(cmd, lib) =>
      (match SlotOf(cmd, lib)
       case Some(slot) => Park(s, slot, cmd.resp)
       case None => s.(sent := s.sent + [(cmd.resp, IpReply(None))]))
    case Event(e) =>
      (match Completion(e)
       case Some((slot, reply)) => Complete(s, slot, reply)
       case None => s)
    case ChannelClosed => Exit(s)
    case Shutdown => Exit(s)
  }

  /** The state of a node after a history of select choices. */
  function Replay(h: seq<Input>): NodeState {
    if h == [] then INITIAL else Step(Replay(h[..|h| - 1]), h[|h| - 1])
  }

  lemma {:induction false} StoppedForGood(h: seq<Input>, i: nat)
    requires i <= |h| && !Replay(h[..i]).running
    ensures Replay(h) == Replay(h[..i])
  {
    if i < |h| {
      assert h[..|h| - 1][..i] == h[..i];
      StoppedForGood(h[..|h| - 1], i);
    } else {
      assert h[..i] == h;
    }
  }

  // ---------------------------------------------------------------- the loop

  /** The scan for the remote address: a later IP component overwrites an earlier one. */
  method RemoteIp(remote: seq<Protocol>) returns (ip: Option<IpAddr>)
    ensures ip == LastIp(remote)
  {
    ip := None;
    for i := 0 to |remote|
      invariant ip == LastIp(remote[..i])
    {
      assert remote[..i + 1][..i] == remote[..i];
      match remote[i] {
        case Ip(address) => ip := Some(address);
        case OtherProtocol =>
      }
    }
    assert remote[..|remote|] == remote;
  }

  class KineticAtlasNode {
    var pendingQueries: map<nat, Responder>
    var pendingDials: map<PeerId, Responder>
    var pendingRequests: map<nat, Responder>
    /** The replies sent so far, in order. */
    var sent: seq<(Responder, Reply)>
    /** The responders that went out of scope unanswered, during the loop and at its end. */
    ghost var overwritten: multiset<Responder>
    ghost var lost: map<Slot, Responder>
    var running: bool
    /** The three maps as one map over slots. */
    ghost var pending: map<Slot, Responder>

    /** The responder that one of the three maps holds for a slot. */
    function Waiting(slot: Slot): Option<Responder>
      reads this
    {
      match slot
      case QuerySlot(id) => if id in pendingQueries then Some(pendingQueries[id]) else None
      case DialSlot(peer) => if peer in pendingDials then Some(pendingDials[peer]) else None
      case RequestSlot(id) => if id in pendingRequests then Some(pendingRequests[id]) else None
    }

    ghost predicate Valid()
      reads this
    {
      forall slot: Slot :: Waiting(slot) == if slot in pending then Some(pending[slot]) else None
    }

    ghost function State(): NodeState
      reads this
    {
      NodeState(pending, sent, overwritten, lost, running)
    }

    constructor ()
      ensures Valid() && State() == INITIAL
    {
      pending := map[];
      pendingQueries, pendingDials, pendingRequests := map[], map[], map[];
      sent, overwritten, lost, running := [], multiset{}, map[], true;
    }

    method Send(r: Responder, reply: Reply)
      modifies this`sent
      ensures sent == old(sent) + [(r, reply)]
    {
      sent := sent + [(r, reply)];
    }

    ghost method GhostPark(slot: Slot, r: Responder)
      modifies this`pending, this`overwritten
      ensures pending == old(pending)[slot := r]
      ensures overwritten == old(overwritten) + Occupant(old(pending), slot)
    {
      overwritten := overwritten + Occupant(pending, slot);
      pending := pending[slot := r];
    }

    method OnGetRecord(cmd: Command, lib: Library)
      requires Valid() && running && cmd.GetRecord?
      modifies this
      ensures Valid() && State() == Park(old(State()), QuerySlot(lib.id), cmd.resp)
    {
      GhostPark(QuerySlot(lib.id), cmd.resp);
      pendingQueries := pendingQueries[lib.id := cmd.resp];
    }

    method OnLookupPeer(cmd: Command, lib: Library)
      requires Valid() && running && cmd.LookupPeer?
      modifies this
      ensures Valid() && State() == Step(old(State()), Received(cmd, lib))
    {
      if lib.parsed.Some? {
        var peer := lib.parsed.value;
        if lib.dialOk {
          GhostPark(DialSlot(peer), cmd.resp);
          pendingDials := pendingDials[peer := cmd.resp];
        } else {
          Send(cmd.resp, IpReply(None));
        }
      } else {
        Send(cmd.resp, IpReply(None));
      }
    }

    method OnSendProxyRequest(cmd: Command, lib: Library)
      requires Valid() && running && cmd.SendProxyRequest?
      modifies this
      ensures Valid() && State() == Park(old(State()), RequestSlot(lib.id), cmd.resp)
    {
      GhostPark(RequestSlot(lib.id), cmd.resp);
      pendingRequests := pendingRequests[lib.id := cmd.resp];
    }

    method OnCommand(cmd: Command, lib: Library)
      requires Valid() && running
      modifies this
      ensures Valid() && State() == Step(old(State()), Received(cmd, lib))
    {
      match cmd {
        case GetRecord(_, _) => OnGetRecord(cmd, lib);
        case LookupPeer(_, _) => OnLookupPeer(cmd, lib);
        case SendProxyRequest(_, _, _) => OnSendProxyRequest(cmd, lib);
      }
    }

    method AnswerQuery(id: nat, reply: Reply)
      requires Valid()
      modifies this
      ensures Valid() && State() == Complete(old(State()), QuerySlot(id), reply)
    {
      if id in pendingQueries {
        var resp := pendingQueries[id];
        pendingQueries := pendingQueries - {id};
        pending := pending - {QuerySlot(id)};
        Send(resp, reply);
      }
    }

    method AnswerRequest(id: nat, reply: Reply)
      requires Valid()
      modifies this
      ensures Valid() && State() == Complete(old(State()), RequestSlot(id), reply)
    {
      if id in pendingRequests {
        var resp := pendingRequests[id];
        pendingRequests := pendingRequests - {id};
        pending := pending - {RequestSlot(id)};
        Send(resp, reply);
      }
    }

    method AnswerDial(peer: PeerId, reply: Reply)
      requires Valid()
      modifies this
      ensures Valid() && State() == Complete(old(State()), DialSlot(peer), reply)
    {
      if peer in pendingDials {
        var resp := pendingDials[peer];
        pendingDials := pendingDials - {peer};
        pending := pending - {DialSlot(peer)};
        Send(resp, reply);
      }
    }

    method OnEvent(event: SwarmEvent)
      requires Valid() && running
      modifies this
      ensures Valid() && State() == Step(old(State()), Event(event))
    {
      match event {
        case QueryProgressed(id, FoundRecord(value)) => AnswerQuery(id, RecordReply(Some(value)));
        case QueryProgressed(id, OtherResult) => AnswerQuery(id, RecordReply(None));
        case ResponseReceived(id, response) => AnswerRequest(id, ProxyReply(Some(response)));
        case RequestReceived =>
        case OutboundFailure(id) => AnswerRequest(id, ProxyReply(None));
        case ConnectionEstablished(peer, remote) =>
          var ip := RemoteIp(remote);
          AnswerDial(peer, IpReply(ip));
        case OutgoingConnectionError(Some(peer)) => AnswerDial(peer, IpReply(None));
        case OutgoingConnectionError(None) =>
        case OtherEvent =>
      }
    }

    method Stop()
      requires Valid() && running
      modifies this
      ensures Valid() && State() == Exit(old(State()))
    {
      lost := pending;
      pending := map[];
      pendingQueries, pendingDials, pendingRequests := map[], map[], map[];
      running := false;
    }

    /** One turn of the loop. */
    method Select(input: Input)
      requires Valid() && running
      modifies this
      ensures Valid() && State() == Step(old(State()), input)
    {
      match input {
        case Received(cmd, lib) => OnCommand(cmd, lib);
        case Event(event) => OnEvent(event);
        case ChannelClosed => Stop();
        case Shutdown => Stop();
      }
    }

    /** The loop over an arbitrary finite history of select choices. */
    method Run(inputs: seq<Input>)
      requires Valid() && State() == INITIAL
      modifies this
      ensures Valid() && State() == Replay(inputs)
    {
      var i := 0;
      while i < |inputs| && running
        invariant 0 <= i <= |inputs|
        invariant Valid() && State() == Replay(inputs[..i])
      {
        assert inputs[..i + 1][..i] == inputs[..i];
        Select(inputs[i]);
        i := i + 1;
      }
      if i < |inputs| {
        StoppedForGood(inputs, i);
      } else {
        assert inputs[..i] == inputs;
      }
    }
  }
}
