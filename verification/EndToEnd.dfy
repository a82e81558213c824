/**
 From the handler's replies back to the network: what a caller of the system is given on
 its oneshot, and so the zone and the responses a request is served from, is exactly what
 an event of a node of its own TLD carried.
 */
module EndToEnd {
  import opened Wrappers
  import opened Network
  import opened NetworkHistory
  import opened SwarmManager
  import opened AtlasSystem
  import opened AtlasGuarantees
  import HostNames
  import Registry
  import Proxy

  /** The caller waits for the reply to a command on a node that no shutdown reached. */
  ghost predicate Waits(actions: seq<Action>, c: nat) {
    && After(actions).Some?
    && var s := After(actions).value;
    && c in s.callers && s.callers[c].Awaiting? && s.callers[c].node < |s.nodes|
    && Input.Shutdown !in s.nodes[s.callers[c].node].history
  }

  ghost function Command(actions: seq<Action>, c: nat): Network.Command
    requires Waits(actions, c)
  {
    After(actions).value.callers[c].cmd
  }

  ghost function History(actions: seq<Action>, c: nat): seq<Input>
    requires Waits(actions, c)
  {
    After(actions).value.nodes[After(actions).value.callers[c].node].history
  }

  /** The reply has been put on the caller's oneshot. */
  ghost predicate Given(actions: seq<Action>, c: nat, reply: Reply)
    requires Waits(actions, c)
  {
    (Command(actions, c).resp, reply) in Replay(History(actions, c)).sent
  }

  function FoundIn(result: QueryResult): Option<Bytes> {
    match result
    case FoundRecord(value) => Some(value)
    case OtherResult => None
  }

  /** The loop took the command at `i`, and `j` is the first progress of its query, with that record. */
  ghost predicate RecordArrives(h: seq<Input>, cmd: Network.Command, i: nat, j: nat, record: Option<Bytes>) {
    && i < j < |h| && h[i].Received? && h[i].cmd == cmd
    && IsProgress(h[j], h[i].lib.id) && FoundIn(h[j].event.result) == record
    && forall k :: i < k < j ==> !IsProgress(h[k], h[i].lib.id)
  }

  predicate IsProgress(i: Input, id: nat) {
    i.Event? && i.event.QueryProgressed? && i.event.queryId == id
  }

  /** The loop took the command at `i`, and `j` is the first event that concerns its request, with that response. */
  ghost predicate ResponseArrives(h: seq<Input>, cmd: Network.Command, i: nat, j: nat,
                                  response: Option<ProxyResponse>) {
    && i < j < |h| && h[i].Received? && h[i].cmd == cmd
    && h[j].Event? && ConcernsRequest(h[j].event, h[i].lib.id)
    && response == (if h[j].event.ResponseReceived? then Some(h[j].event.response) else None)
    && forall k :: i < k < j && h[k].Event? ==> !ConcernsRequest(h[k].event, h[i].lib.id)
  }

  lemma HistoryIsSound(actions: seq<Action>, c: nat)
    requires Waits(actions, c)
    ensures FreshIds(History(actions, c)) && Replay(History(actions, c)).running
  {
    InvariantHolds(actions);
    UsedNodeIsRunning(actions, c);
    var s := After(actions).value;
    var n := s.callers[c].node;
    assert NodeOk(s.nodes[n], n, s.issued);
  }

  lemma RunningPrefix(h: seq<Input>, j: nat)
    requires Replay(h).running && j <= |h|
    ensures NoStop(h[..j])
  {
    RunningMeansNoStop(h);
    assert forall i <- h[..j] :: i in h;
  }

  lemma ArrivedRecordIsAnswer(h: seq<Input>, cmd: Network.Command, i: nat, j: nat, record: Option<Bytes>)
    requires FreshIds(h) && Replay(h).running && cmd.GetRecord? && RecordArrives(h, cmd, i, j, record)
    ensures FateAt(h, i) == Answered(RecordReply(record))
  {
    RunningPrefix(h, j);
    assert forall k :: i < k < j ==> !IsProgress(h[k], h[i].lib.id);
    GetRecordAnswer(h, i, j);
  }

  lemma AnswerIsArrivedRecord(h: seq<Input>, i: nat, record: Option<Bytes>) returns (j: nat)
    requires i < |h| && h[i].Received? && h[i].cmd.GetRecord? && FateAt(h, i) == Answered(RecordReply(record))
    ensures RecordArrives(h, h[i].cmd, i, j, record)
  {
    var slot := QuerySlot(h[i].lib.id);
    j := AnswerCameFromEvent(h, i, slot, RecordReply(record));
    forall k | i < k < j
      ensures !IsProgress(h[k], h[i].lib.id)
    {
      assert Settle(h[k], slot).Waiting?;
    }
  }

  /** A caller is given a record, or none, exactly when the first progress of its own query carried that. */
  lemma {:induction false} RecordComesFromTheNetwork(actions: seq<Action>, c: nat, record: Option<Bytes>)
    requires Waits(actions, c) && Command(actions, c).GetRecord?
    ensures Given(actions, c, RecordReply(record)) <==>
            exists i, j: nat :: RecordArrives(History(actions, c), Command(actions, c), i, j, record)
  {
    var h, cmd := History(actions, c), Command(actions, c);
    HistoryIsSound(actions, c);
    ReplyIsTheFateOfTheCommand(actions, c, RecordReply(record));
    if Given(actions, c, RecordReply(record)) {
      var i :| 0 <= i < |h| && h[i].Received? && h[i].cmd == cmd && FateAt(h, i) == Answered(RecordReply(record));
      var j := AnswerIsArrivedRecord(h, i, record);
    }
    if i, j: nat :| RecordArrives(h, cmd, i, j, record) {
      ArrivedRecordIsAnswer(h, cmd, i, j, record);
    }
  }

  lemma ArrivedResponseIsAnswer(h: seq<Input>, cmd: Network.Command, i: nat, j: nat, response: Option<ProxyResponse>)
    requires FreshIds(h) && Replay(h).running && cmd.SendProxyRequest? && ResponseArrives(h, cmd, i, j, response)
    ensures FateAt(h, i) == Answered(ProxyReply(response))
  {
    RunningPrefix(h, j);
    ProxyRequestAnswer(h, i, j);
  }

  lemma AnswerIsArrivedResponse(h: seq<Input>, i: nat, response: Option<ProxyResponse>) returns (j: nat)
    requires i < |h| && h[i].Received? && h[i].cmd.SendProxyRequest? && FateAt(h, i) == Answered(ProxyReply(response))
    ensures ResponseArrives(h, h[i].cmd, i, j, response)
  {
    var slot := RequestSlot(h[i].lib.id);
    j := AnswerCameFromEvent(h, i, slot, ProxyReply(response));
    forall k | i < k < j && h[k].Event?
      ensures !ConcernsRequest(h[k].event, h[i].lib.id)
    {
      assert Settle(h[k], slot).Waiting?;
    }
  }

  /** The same for a response: exactly what the first event about the caller's own request carried. */
  lemma {:induction false} ResponseComesFromTheNetwork(actions: seq<Action>, c: nat, response: Option<ProxyResponse>)
    requires Waits(actions, c) && Command(actions, c).SendProxyRequest?
    ensures Given(actions, c, ProxyReply(response)) <==>
            exists i, j: nat :: ResponseArrives(History(actions, c), Command(actions, c), i, j, response)
  {
    var h, cmd := History(actions, c), Command(actions, c);
    HistoryIsSound(actions, c);
    ReplyIsTheFateOfTheCommand(actions, c, ProxyReply(response));
    if Given(actions, c, ProxyReply(response)) {
      var i :| 0 <= i < |h| && h[i].Received? && h[i].cmd == cmd && FateAt(h, i) == Answered(ProxyReply(response));
      var j := AnswerIsArrivedResponse(h, i, response);
    }
    if i, j: nat :| ResponseArrives(h, cmd, i, j, response) {
      ArrivedResponseIsAnswer(h, cmd, i, j, response);
    }
  }

  // ---------------------------------------------------------------- the handler

  /** What the handler took for the outcome of its command is the reply that the caller was given. */
  ghost predicate Backs(actions: seq<Action>, c: nat, outcome: Option<Reply>)
    requires Waits(actions, c)
  {
    outcome.Some? && Given(actions, c, outcome.value)
  }

  ghost function NodeOf(actions: seq<Action>, c: nat): Node
    requires Waits(actions, c)
  {
    After(actions).value.nodes[After(actions).value.callers[c].node]
  }

  /** The TLD in a request's host. */
  function RequestTld(header: Option<string>): string {
    var host := HostNames.HostAndTld(header);
    if host.Some? then host.value.1 else ""
  }

  /** The TLD is the one in the request's host, and the address is for its network. */
  ghost predicate IsForRequest(tld: string, header: Option<string>, networks: map<string, Registry.NetworkConfig>,
                               a: Proxy.Address) {
    && HostNames.HostAndTld(header).Some? && tld == RequestTld(header)
    && tld in networks && networks[tld].networkId == a.networkId
  }

  /** The zone with these targets was opened from the record that the first progress of the command's query found. */
  ghost predicate ZoneArrives(h: seq<Input>, cmd: Network.Command, i: nat, j: nat, payload: Bytes,
                              up: Proxy.Upstream, a: Proxy.Address, targets: seq<Proxy.DnsRecord>) {
    RecordArrives(h, cmd, i, j, Some(payload)) && Proxy.OpensTo(up, a, payload, targets)
  }

  /**
   The zone that routes a request was opened from a record which a running node of the
   request's TLD found, the one in the first progress of the handler's own query; and it was
   opened for the network that the registry holds for that TLD.
   */
  lemma {:induction false} RoutingZoneWasFound(header: Option<string>, networks: map<string, Registry.NetworkConfig>,
                                               up: Proxy.Upstream, a: Proxy.Address, targets: seq<Proxy.DnsRecord>,
                                               actions: seq<Action>, c: nat)
    requires Proxy.AddressedTo(header, networks, a) && Proxy.Publishes(up, a, targets)
    requires Waits(actions, c) && After(actions).value.callers[c].tld == RequestTld(header)
    requires Command(actions, c).GetRecord? && Command(actions, c).domain == a.base
    requires Backs(actions, c, up.query(a.base))
    ensures Running(NodeOf(actions, c)) && IsForRequest(NodeOf(actions, c).tld, header, networks, a)
    ensures exists i, j: nat, payload ::
              ZoneArrives(History(actions, c), Command(actions, c), i, j, payload, up, a, targets)
  {
    var h, cmd := History(actions, c), Command(actions, c);
    var record := Proxy.RecordIn(up.query(a.base));
    UsedNodeIsRunning(actions, c);
    RecordComesFromTheNetwork(actions, c, record);
    var i, j: nat :| RecordArrives(h, cmd, i, j, record);
    assert ZoneArrives(h, cmd, i, j, record.value, up, a, targets);
  }

  /** The response a request is served with, if a peer gave it, arrived in the first event about the request to it. */
  lemma {:induction false} ServedResponseArrived(up: Proxy.Upstream, targets: seq<Proxy.DnsRecord>, k: nat,
                                                 response: ProxyResponse, actions: seq<Action>, c: nat)
    requires Proxy.Served(up, targets, Ok(response))
    requires k < |targets| && Proxy.FirstToAnswer(up, targets, k) && targets[k].PeerId?
    requires Waits(actions, c) && Command(actions, c).SendProxyRequest?
    requires up.parsePeer(targets[k].peer) == Some(Command(actions, c).peer)
    requires Backs(actions, c, up.ask(k, Command(actions, c).peer))
    ensures Running(NodeOf(actions, c)) && NodeOf(actions, c).tld == After(actions).value.callers[c].tld
    ensures exists i, j: nat :: ResponseArrives(History(actions, c), Command(actions, c), i, j, Some(response))
  {
    UsedNodeIsRunning(actions, c);
    Proxy.PeerAnswerIsReply(up, targets, k, Command(actions, c).peer);
    Proxy.FirstAnswerIsServed(up, targets, k, response);
    ResponseComesFromTheNetwork(actions, c, Some(response));
  }

  // ---------------------------------------------------------------- a caller that runs the handler

  /** One command of a caller: when it was resolved, by which node, for which TLD, and what the caller was given. */
  datatype Exchange = Exchange(moment: nat, node: nat, tld: string, cmd: Network.Command, outcome: Option<Reply>)

  ghost function ReplyTo(h: seq<Input>, r: Responder): (outcome: Option<Reply>)
    ensures outcome.Some? ==> (r, outcome.value) in Replay(h).sent
  {
    if exists reply :: (r, reply) in Replay(h).sent then
      var reply :| (r, reply) in Replay(h).sent;
      Some(reply)
    else None
  }

  ghost function ExchangeAt(s: System, c: nat, moment: nat): Exchange
    requires Applicable(s, Wake(c))
  {
    var p := s.callers[c];
    Exchange(moment, p.node, p.tld, p.cmd, ReplyTo(s.nodes[p.node].history, p.cmd.resp))
  }

  /** Everything a caller said and was told in a run, in order: one exchange each time it wakes. */
  ghost function Conversation(actions: seq<Action>, c: nat): seq<Exchange> {
    if actions == [] then []
    else
      var m := |actions| - 1;
      var talk := Conversation(actions[..m], c);
      if actions[m] == Wake(c) && After(actions).Some? then talk + [ExchangeAt(After(actions[..m]).value, c, m)]
      else talk
  }

  /** The exchange took place in the run. */
  ghost predicate TookPlace(actions: seq<Action>, c: nat, e: Exchange) {
    && e.moment < |actions| && After(actions[..e.moment]).Some?
    && Applicable(After(actions[..e.moment]).value, Wake(c))
    && e == ExchangeAt(After(actions[..e.moment]).value, c, e.moment)
  }

  lemma {:induction false} ExchangesTookPlace(actions: seq<Action>, c: nat, i: nat)
    requires After(actions).Some? && i < |Conversation(actions, c)|
    ensures TookPlace(actions, c, Conversation(actions, c)[i])
  {
    var m := |actions| - 1;
    if i < |Conversation(actions[..m], c)| {
      ExchangesTookPlace(actions[..m], c, i);
      var e := Conversation(actions[..m], c)[i];
      assert actions[..m][..e.moment] == actions[..e.moment];
    }
  }

  /** Without a stop of its own, no shutdown reaches a node. */
  lemma {:induction false} OnlyStopsShutDown(actions: seq<Action>, n: nat)
    requires After(actions).Some? && StopNode(n) !in actions && n < |After(actions).value.nodes|
    ensures Input.Shutdown !in After(actions).value.nodes[n].history
  {
    if actions != [] {
      var front, a := actions[..|actions| - 1], actions[|actions| - 1];
      var s := After(front).value;
      assert a in actions && StopNode(n) !in front;
      if n < |s.nodes| {
        OnlyStopsShutDown(front, n);
        HistoryGrows(s, a, n);
        assert Input.Shutdown !in Selected(s, a, n);
      } else {
        NewNodeIsFresh(s, a, n);
      }
    }
  }

  lemma NewNodeIsFresh(s: System, a: Action, n: nat)
    requires Applicable(s, a) && |s.nodes| <= n < |Apply(s, a).nodes|
    ensures Apply(s, a).nodes[n].history == []
  {
  }

  /** The moment of an exchange is one at which the caller waits and has been given the outcome. */
  lemma {:induction false} ExchangeIsBacked(actions: seq<Action>, c: nat, i: nat)
    requires After(actions).Some? && i < |Conversation(actions, c)|
    requires StopNode(Conversation(actions, c)[i].node) !in actions
    ensures var e := Conversation(actions, c)[i];
            && e.moment < |actions| && Waits(actions[..e.moment], c)
            && Command(actions[..e.moment], c) == e.cmd
            && After(actions[..e.moment]).value.callers[c].tld == e.tld
            && (e.outcome.Some? ==> Backs(actions[..e.moment], c, e.outcome))
  {
    ExchangesTookPlace(actions, c, i);
    var e := Conversation(actions, c)[i];
    assert StopNode(e.node) !in actions[..e.moment];
    OnlyStopsShutDown(actions[..e.moment], e.node);
  }

  /** Those of the contacted targets that are peers. */
  function Peers(targets: seq<Proxy.DnsRecord>, contacts: seq<nat>): (peers: seq<nat>)
    requires forall k <- contacts :: k < |targets|
    ensures forall k :: k in peers <==> k in contacts && targets[k].PeerId?
  {
    if contacts == [] then []
    else
      assert contacts[0] in contacts && forall k <- contacts[1..] :: k in contacts;
      (if targets[contacts[0]].PeerId? then [contacts[0]] else []) + Peers(targets, contacts[1..])
  }

  ghost predicate AsksForRecord(e: Exchange, up: Proxy.Upstream, a: Proxy.Address) {
    e.cmd.GetRecord? && e.cmd.domain == a.base && e.outcome == up.query(a.base)
  }

  ghost predicate AsksPeer(e: Exchange, up: Proxy.Upstream, targets: seq<Proxy.DnsRecord>, k: nat) {
    && k < |targets| && targets[k].PeerId? && e.cmd.SendProxyRequest?
    && up.parsePeer(targets[k].peer) == Some(e.cmd.peer)
    && e.outcome == up.ask(k, e.cmd.peer)
  }

  /** The caller ran the handler for a host of this TLD: it asked for the record, then each contacted peer in turn. */
  ghost predicate RanHandler(talk: seq<Exchange>, tld: string, up: Proxy.Upstream, a: Proxy.Address,
                             targets: seq<Proxy.DnsRecord>, contacts: seq<nat>) {
    && (forall k <- contacts :: k < |targets|)
    && (forall i :: 0 <= i < |talk| ==> talk[i].tld == tld)
    && var peers := Peers(targets, contacts);
    && |talk| == 1 + |peers|
    && AsksForRecord(talk[0], up, a)
    && forall j :: 0 <= j < |peers| ==> AsksPeer(talk[j + 1], up, targets, peers[j])
  }

  /** No node that the caller talked to was shut down. */
  ghost predicate Undisturbed(actions: seq<Action>, c: nat) {
    forall e <- Conversation(actions, c) :: StopNode(e.node) !in actions
  }

  /** At the moment of the exchange a running node of the host's TLD had found the zone with the targets. */
  ghost predicate ZoneFoundIn(actions: seq<Action>, c: nat, e: Exchange, header: Option<string>,
                              networks: map<string, Registry.NetworkConfig>,
                              up: Proxy.Upstream, a: Proxy.Address, targets: seq<Proxy.DnsRecord>) {
    && e.moment < |actions| && Waits(actions[..e.moment], c)
    && Running(NodeOf(actions[..e.moment], c))
    && IsForRequest(NodeOf(actions[..e.moment], c).tld, header, networks, a)
    && exists i, j: nat, payload :: ZoneArrives(History(actions[..e.moment], c), e.cmd, i, j, payload, up, a, targets)
  }

  /** At the moment of the exchange a running node of that TLD had received the response to the request. */
  ghost predicate ResponseFoundIn(actions: seq<Action>, c: nat, e: Exchange, tld: string, response: ProxyResponse) {
    && e.moment < |actions| && Waits(actions[..e.moment], c)
    && Running(NodeOf(actions[..e.moment], c)) && NodeOf(actions[..e.moment], c).tld == tld
    && exists i, j: nat :: ResponseArrives(History(actions[..e.moment], c), e.cmd, i, j, Some(response))
  }

  lemma {:induction false} HandlerFoundZone(actions: seq<Action>, c: nat, header: Option<string>,
                                            networks: map<string, Registry.NetworkConfig>, up: Proxy.Upstream,
                                            a: Proxy.Address, targets: seq<Proxy.DnsRecord>, contacts: seq<nat>)
    requires After(actions).Some? && Undisturbed(actions, c)
    requires Proxy.AddressedTo(header, networks, a) && Proxy.Publishes(up, a, targets)
    requires RanHandler(Conversation(actions, c), RequestTld(header), up, a, targets, contacts)
    ensures ZoneFoundIn(actions, c, Conversation(actions, c)[0], header, networks, up, a, targets)
  {
    var e := Conversation(actions, c)[0];
    assert e in Conversation(actions, c);
    ExchangeIsBacked(actions, c, 0);
    RoutingZoneWasFound(header, networks, up, a, targets, actions[..e.moment], c);
  }

  lemma {:induction false} HandlerReceived(actions: seq<Action>, c: nat, tld: string, up: Proxy.Upstream,
                                           a: Proxy.Address, targets: seq<Proxy.DnsRecord>, contacts: seq<nat>,
                                           j: nat, response: ProxyResponse)
    requires After(actions).Some? && Undisturbed(actions, c)
    requires RanHandler(Conversation(actions, c), tld, up, a, targets, contacts)
    requires Proxy.Served(up, targets, Ok(response))
    requires j < |Peers(targets, contacts)| && Proxy.FirstToAnswer(up, targets, Peers(targets, contacts)[j])
    ensures ResponseFoundIn(actions, c, Conversation(actions, c)[j + 1], tld, response)
  {
    var e, k := Conversation(actions, c)[j + 1], Peers(targets, contacts)[j];
    assert e in Conversation(actions, c) && AsksPeer(e, up, targets, k);
    Proxy.PeerAnswerWasGiven(up, targets, k);
    ExchangeIsBacked(actions, c, j + 1);
    ServedResponseArrived(up, targets, k, response, actions[..e.moment], c);
  }

  /**
   The whole way.  When a caller of the system runs the handler for a request and serves it,
   the zone that routed the request was found by a running node of the request's own TLD, in
   answer to the caller's own query; and unless a gateway gave the response, such a node
   received it in answer to the caller's own request to the first peer that answered.
   */
  lemma {:induction false} ServedFromItsOwnNetwork(actions: seq<Action>, c: nat, header: Option<string>,
                                                   networks: map<string, Registry.NetworkConfig>, up: Proxy.Upstream,
                                                   a: Proxy.Address, targets: seq<Proxy.DnsRecord>,
                                                   contacts: seq<nat>, response: ProxyResponse)
    requires After(actions).Some? && Undisturbed(actions, c)
    requires Proxy.AddressedTo(header, networks, a) && Proxy.Publishes(up, a, targets)
    requires Proxy.Served(up, targets, Ok(response)) && Proxy.Contacted(up, targets, contacts)
    requires RanHandler(Conversation(actions, c), RequestTld(header), up, a, targets, contacts)
    ensures ZoneFoundIn(actions, c, Conversation(actions, c)[0], header, networks, up, a, targets)
    ensures exists k: nat ::
              && k < |targets| && Proxy.FirstToAnswer(up, targets, k)
              && (targets[k].PeerId? ==> exists e <- Conversation(actions, c) ::
                    AsksPeer(e, up, targets, k) && ResponseFoundIn(actions, c, e, RequestTld(header), response))
  {
    HandlerFoundZone(actions, c, header, networks, up, a, targets, contacts);
    var k :| 0 <= k < |targets| && Proxy.FirstToAnswer(up, targets, k);
    if targets[k].PeerId? {
      Proxy.FirstAnswerWasContacted(up, targets, k, contacts);
      var j :| 0 <= j < |Peers(targets, contacts)| && Peers(targets, contacts)[j] == k;
      HandlerReceived(actions, c, RequestTld(header), up, a, targets, contacts, j, response);
      var e := Conversation(actions, c)[j + 1];
      assert e in Conversation(actions, c) && AsksPeer(e, up, targets, k);
    }
  }
}
