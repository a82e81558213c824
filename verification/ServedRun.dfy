/**
 The guarantees of `EndToEnd` are not vacuous: a run in which a caller runs the handler
 and serves a request from a peer.
 */
module ServedRun {
  import opened Wrappers
  import opened Network
  import opened NetworkHistory
  import opened SwarmManager
  import opened AtlasSystem
  import opened AtlasGuarantees
  import opened EndToEnd
  import HostNames
  import Registry
  import Proxy

  /** The caller holds the channel of a running node that has nothing queued. */
  ghost predicate Idles(actions: seq<Action>, c: nat, n: nat, tld: string, h: seq<Input>, issued: nat) {
    && After(actions).Some?
    && var s := After(actions).value;
    && c in s.callers && s.callers[c].Holding? && s.callers[c].node == n && s.callers[c].tld == tld
    && n < |s.nodes| && Running(s.nodes[n]) && s.nodes[n].queue == [] && s.nodes[n].history == h
    && |s.issued| == issued
  }

  /** The caller waits for the command, which the node's loop has taken. */
  ghost predicate Asked(actions: seq<Action>, c: nat, n: nat, tld: string, h: seq<Input>, issued: nat,
                        cmd: Network.Command) {
    && After(actions).Some?
    && var s := After(actions).value;
    && c in s.callers && s.callers[c].Awaiting? && s.callers[c].node == n && s.callers[c].tld == tld
    && s.callers[c].cmd == cmd
    && n < |s.nodes| && Running(s.nodes[n]) && s.nodes[n].queue == [] && s.nodes[n].history == h
    && |s.issued| == issued
  }

  lemma ConversationGrows(actions: seq<Action>, a: Action, c: nat)
    requires After(actions + [a]).Some?
    ensures Conversation(actions + [a], c) ==
            if a == Wake(c) then Conversation(actions, c) + [ExchangeAt(After(actions).value, c, |actions|)]
            else Conversation(actions, c)
  {
    assert (actions + [a])[..|actions|] == actions;
  }

  lemma {:induction false} SendThen(actions: seq<Action>, c: nat, n: nat, tld: string, h: seq<Input>,
                                    cmd: Network.Command, lib: Library)
    requires Idles(actions, c, n, tld, h, cmd.resp) && FreshIds(h + [Received(cmd, lib)])
    ensures var all := actions + [Send(c, cmd)] + [Receive(n, lib)];
            && Asked(all, c, n, tld, h + [Received(cmd, lib)], cmd.resp + 1, cmd)
            && Conversation(all, c) == Conversation(actions, c)
  {
    var sent := actions + [Send(c, cmd)];
    Continue(actions, Send(c, cmd));
    ConversationGrows(actions, Send(c, cmd), c);
    var s := After(sent).value;
    assert s.nodes[n].queue == [cmd] && s.nodes[n].history == h;
    Continue(sent, Receive(n, lib));
    ConversationGrows(sent, Receive(n, lib), c);
    RunningMeansNoStop(h);
    RunningMeansNoStop(h + [Received(cmd, lib)]);
  }

  ghost predicate Unanswered(h: seq<Input>, r: Responder) {
    forall reply :: (r, reply) !in Replay(h).sent
  }

  lemma ReplayNext(h: seq<Input>, i: Input)
    ensures Replay(h + [i]) == Step(Replay(h), i)
  {
    assert (h + [i])[..|h|] == h;
  }

  lemma CompletionReplies(h: seq<Input>, event: SwarmEvent, slot: Slot, reply: Reply, r: Responder)
    requires Replay(h).running && slot in Replay(h).pending && Replay(h).pending[slot] == r
    requires Completion(event).Some? && Completion(event).value.0 == slot && Completion(event).value.1 == reply
    requires Unanswered(h, r)
    ensures Replay(h + [Event(event)]) == Complete(Replay(h), slot, reply)
    ensures ReplyTo(h + [Event(event)], r) == Some(reply)
  {
    ReplayNext(h, Event(event));
    assert (r, reply) in Replay(h + [Event(event)]).sent;
  }

  /** The caller waits for the command, and its reply is there. */
  ghost predicate Told(actions: seq<Action>, c: nat, n: nat, tld: string, h: seq<Input>, issued: nat,
                       cmd: Network.Command, reply: Reply) {
    Asked(actions, c, n, tld, h, issued, cmd) && ReplyTo(h, cmd.resp) == Some(reply)
  }

  lemma {:induction false} DeliverThen(actions: seq<Action>, c: nat, n: nat, tld: string, h: seq<Input>,
                                       issued: nat, cmd: Network.Command, event: SwarmEvent, slot: Slot, reply: Reply)
    requires Asked(actions, c, n, tld, h, issued, cmd)
    requires slot in Replay(h).pending && Replay(h).pending[slot] == cmd.resp && Unanswered(h, cmd.resp)
    requires Completion(event).Some? && Completion(event).value.0 == slot && Completion(event).value.1 == reply
    ensures var all := actions + [Deliver(n, event)];
            && Told(all, c, n, tld, h + [Event(event)], issued, cmd, reply)
            && Conversation(all, c) == Conversation(actions, c)
  {
    CompletionReplies(h, event, slot, reply, cmd.resp);
    Continue(actions, Deliver(n, event));
    ConversationGrows(actions, Deliver(n, event), c);
  }

  lemma {:induction false} WakeThen(actions: seq<Action>, c: nat, n: nat, tld: string, h: seq<Input>,
                                    issued: nat, cmd: Network.Command, reply: Reply)
    requires Told(actions, c, n, tld, h, issued, cmd, reply)
    ensures var all := actions + [Wake(c)];
            && Idles(all, c, n, tld, h, issued)
            && Conversation(all, c) == Conversation(actions, c) + [Exchange(|actions|, n, tld, cmd, Some(reply))]
  {
    Continue(actions, Wake(c));
    ConversationGrows(actions, Wake(c), c);
  }

  /** A caller enters, and the second lock section spawns the node. */
  lemma {:induction false} Enter(tld: string) returns (actions: seq<Action>)
    ensures Idles(actions, 0, 0, tld, [], 0) && Conversation(actions, 0) == []
    ensures NoStops(actions)
  {
    actions := [];
    Continue(actions, Arrive(0, tld));
    ConversationGrows(actions, Arrive(0, tld), 0);
    actions := actions + [Arrive(0, tld)];
    Continue(actions, FirstLock(0));
    ConversationGrows(actions, FirstLock(0), 0);
    actions := actions + [FirstLock(0)];
    Continue(actions, SecondLock(0, true));
    ConversationGrows(actions, SecondLock(0, true), 0);
    actions := actions + [SecondLock(0, true)];
  }

  lemma CommandParks(h: seq<Input>, cmd: Network.Command, lib: Library, slot: Slot)
    requires Replay(h).running && SlotOf(cmd, lib) == Some(slot) && Unanswered(h, cmd.resp)
    ensures var s := Replay(h + [Received(cmd, lib)]);
            slot in s.pending && s.pending[slot] == cmd.resp && Unanswered(h + [Received(cmd, lib)], cmd.resp)
  {
    ReplayNext(h, Received(cmd, lib));
  }

  /** The run with the actions of one exchange added. */
  function Exchanging(actions: seq<Action>, cmd: Network.Command, lib: Library, event: SwarmEvent): seq<Action> {
    actions + [Send(0, cmd)] + [Receive(0, lib)] + [Deliver(0, event)] + [Wake(0)]
  }

  /** One exchange of a caller, from the command to the reply. */
  lemma {:induction false} OneExchange(actions: seq<Action>, tld: string, h: seq<Input>, cmd: Network.Command,
                                       lib: Library, event: SwarmEvent, slot: Slot, reply: Reply)
    requires Idles(actions, 0, 0, tld, h, cmd.resp) && FreshIds(h + [Received(cmd, lib)])
    requires Unanswered(h, cmd.resp) && SlotOf(cmd, lib) == Some(slot)
    requires Completion(event).Some? && Completion(event).value.0 == slot && Completion(event).value.1 == reply
    ensures var all := Exchanging(actions, cmd, lib, event);
            && Idles(all, 0, 0, tld, h + [Received(cmd, lib)] + [Event(event)], cmd.resp + 1)
            && Conversation(all, 0)
               == Conversation(actions, 0) + [Exchange(|actions| + 3, 0, tld, cmd, Some(reply))]
  {
    SendThen(actions, 0, 0, tld, h, cmd, lib);
    CommandParks(h, cmd, lib, slot);
    var taken, more := actions + [Send(0, cmd)] + [Receive(0, lib)], h + [Received(cmd, lib)];
    DeliverThen(taken, 0, 0, tld, more, cmd.resp + 1, cmd, event, slot, reply);
    WakeThen(taken + [Deliver(0, event)], 0, 0, tld, more + [Event(event)], cmd.resp + 1, cmd, reply);
  }

  /** The environment of the request: one peer in the zone, which answers. */
  function Answering(payload: Bytes, sub: string, peer: Network.PeerId, response: ProxyResponse): Proxy.Upstream {
    Proxy.Upstream(
      true, _ => Some(RecordReply(Some(payload))), (_, _) => Some(map[sub := [Proxy.DnsRecord.PeerId("peer")]]),
      true, _ => Some(peer), (_, _) => true, (_, _) => Some(ProxyReply(Some(response))), (_, _) => None, _ => true)
  }

  function Query(base: string): Network.Command {
    GetRecord(base, 0)
  }

  function Forward(peer: Network.PeerId, request: ProxyRequest): Network.Command {
    SendProxyRequest(peer, request, 1)
  }

  function IssuedId(): Library {
    Library(0, None, false)
  }

  function FoundEvent(payload: Bytes): SwarmEvent {
    QueryProgressed(0, FoundRecord(payload))
  }

  /** The node's history after the first exchange. */
  function Found(base: string, payload: Bytes): seq<Input> {
    [] + [Received(Query(base), IssuedId())] + [Event(FoundEvent(payload))]
  }

  lemma {:induction false} FirstExchange(actions: seq<Action>, tld: string, base: string, payload: Bytes)
    requires Idles(actions, 0, 0, tld, [], 0)
    ensures var all := Exchanging(actions, Query(base), IssuedId(), FoundEvent(payload));
            && Idles(all, 0, 0, tld, Found(base, payload), 1)
            && Conversation(all, 0)
               == Conversation(actions, 0)
                  + [Exchange(|actions| + 3, 0, tld, Query(base), Some(RecordReply(Some(payload))))]
  {
    OneExchange(actions, tld, [], Query(base), IssuedId(), FoundEvent(payload),
                QuerySlot(0), RecordReply(Some(payload)));
  }

  lemma OnlyQueryAnswered(base: string, payload: Bytes)
    ensures Unanswered(Found(base, payload), 1)
  {
    var taken: seq<Input> := [] + [Received(Query(base), IssuedId())];
    ReplayNext([], Received(Query(base), IssuedId()));
    ReplayNext(taken, Event(FoundEvent(payload)));
  }

  lemma RequestIdIsFresh(base: string, payload: Bytes, peer: Network.PeerId, request: ProxyRequest)
    ensures FreshIds(Found(base, payload) + [Received(Forward(peer, request), IssuedId())])
  {
  }

  lemma {:induction false} SecondExchange(actions: seq<Action>, tld: string, h: seq<Input>,
                                          peer: Network.PeerId, request: ProxyRequest, response: ProxyResponse)
    requires Idles(actions, 0, 0, tld, h, 1) && Unanswered(h, 1)
    requires FreshIds(h + [Received(Forward(peer, request), IssuedId())])
    ensures var all := Exchanging(actions, Forward(peer, request), IssuedId(), ResponseReceived(0, response));
            && After(all).Some?
            && Conversation(all, 0)
               == Conversation(actions, 0)
                  + [Exchange(|actions| + 3, 0, tld, Forward(peer, request), Some(ProxyReply(Some(response))))]
  {
    OneExchange(actions, tld, h, Forward(peer, request), IssuedId(), ResponseReceived(0, response),
                RequestSlot(0), ProxyReply(Some(response)));
  }

  lemma OnePeerIsContacted(up: Proxy.Upstream, target: Proxy.DnsRecord)
    requires target.PeerId? && Proxy.CanBeContacted(up, [target], 0)
    ensures Proxy.Contacted(up, [target], [0]) && Peers([target], [0]) == [0]
  {
    assert Proxy.NoneAnswers(up, [target], 0);
  }

  lemma OnePeerServes(up: Proxy.Upstream, target: Proxy.DnsRecord, response: ProxyResponse)
    requires Proxy.Answer(up, [target], 0) == Some(response) && up.wellFormed(response)
    ensures Proxy.FirstToAnswer(up, [target], 0) && Proxy.Served(up, [target], Ok(response))
  {
  }

  /** The environment publishes the peer for the address, and the peer's answer is served. */
  lemma AnsweringServes(a: Proxy.Address, payload: Bytes, peer: Network.PeerId, response: ProxyResponse)
    ensures var up := Answering(payload, a.sub, peer, response);
            var targets := [Proxy.DnsRecord.PeerId("peer")];
            && Proxy.Publishes(up, a, targets)
            && Proxy.Served(up, targets, Ok(response)) && Proxy.Contacted(up, targets, [0])
            && Proxy.FirstToAnswer(up, targets, 0)
  {
    var up, target := Answering(payload, a.sub, peer, response), Proxy.DnsRecord.PeerId("peer");
    assert [target][..0] == [];
    OnePeerIsContacted(up, target);
    OnePeerServes(up, target, response);
  }

  /** An exchange with that command and reply. */
  predicate Says(e: Exchange, tld: string, cmd: Network.Command, reply: Reply) {
    e.tld == tld && e.cmd == cmd && e.outcome == Some(reply)
  }

  lemma QueryIsAnswered(e: Exchange, tld: string, a: Proxy.Address, payload: Bytes, peer: Network.PeerId,
                        response: ProxyResponse)
    requires Says(e, tld, Query(a.base), RecordReply(Some(payload)))
    ensures AsksForRecord(e, Answering(payload, a.sub, peer, response), a)
  {
  }

  lemma ForwardIsAnswered(e: Exchange, tld: string, a: Proxy.Address, payload: Bytes, peer: Network.PeerId,
                          request: ProxyRequest, response: ProxyResponse)
    requires Says(e, tld, Forward(peer, request), ProxyReply(Some(response)))
    ensures AsksPeer(e, Answering(payload, a.sub, peer, response), [Proxy.DnsRecord.PeerId("peer")], 0)
  {
  }

  lemma {:induction false} TwoAsksRunHandler(talk: seq<Exchange>, tld: string, up: Proxy.Upstream, a: Proxy.Address,
                                             target: Proxy.DnsRecord)
    requires |talk| == 2 && talk[0].tld == tld && talk[1].tld == tld
    requires AsksForRecord(talk[0], up, a) && AsksPeer(talk[1], up, [target], 0)
    requires Peers([target], [0]) == [0]
    ensures RanHandler(talk, tld, up, a, [target], [0])
  {
  }

  lemma {:induction false} AnsweredTalkRunsHandler(talk: seq<Exchange>, tld: string, a: Proxy.Address, payload: Bytes,
                                                   peer: Network.PeerId, request: ProxyRequest,
                                                   response: ProxyResponse)
    requires |talk| == 2 && Says(talk[0], tld, Query(a.base), RecordReply(Some(payload)))
    requires Says(talk[1], tld, Forward(peer, request), ProxyReply(Some(response)))
    ensures var targets := [Proxy.DnsRecord.PeerId("peer")];
            RanHandler(talk, tld, Answering(payload, a.sub, peer, response), a, targets, [0])
  {
    var target, up := Proxy.DnsRecord.PeerId("peer"), Answering(payload, a.sub, peer, response);
    OnePeerIsContacted(up, target);
    QueryIsAnswered(talk[0], tld, a, payload, peer, response);
    ForwardIsAnswered(talk[1], tld, a, payload, peer, request, response);
    TwoAsksRunHandler(talk, tld, up, a, target);
  }

  ghost predicate NoStops(actions: seq<Action>) {
    forall a <- actions :: !a.StopNode?
  }

  lemma ExchangingStopsNothing(actions: seq<Action>, cmd: Network.Command, lib: Library, event: SwarmEvent)
    requires NoStops(actions)
    ensures NoStops(Exchanging(actions, cmd, lib, event))
  {
  }

  /** A caller enters, queries and forwards. */
  lemma {:induction false} TwoExchanges(tld: string, base: string, payload: Bytes, peer: Network.PeerId,
                                        request: ProxyRequest, response: ProxyResponse) returns (actions: seq<Action>)
    ensures After(actions).Some? && NoStops(actions) && |Conversation(actions, 0)| == 2
    ensures Says(Conversation(actions, 0)[0], tld, Query(base), RecordReply(Some(payload)))
    ensures Says(Conversation(actions, 0)[1], tld, Forward(peer, request), ProxyReply(Some(response)))
  {
    var entered := Enter(tld);
    FirstExchange(entered, tld, base, payload);
    ExchangingStopsNothing(entered, Query(base), IssuedId(), FoundEvent(payload));
    var found := Exchanging(entered, Query(base), IssuedId(), FoundEvent(payload));
    OnlyQueryAnswered(base, payload);
    RequestIdIsFresh(base, payload, peer, request);
    SecondExchange(found, tld, Found(base, payload), peer, request, response);
    ExchangingStopsNothing(found, Forward(peer, request), IssuedId(), ResponseReceived(0, response));
    actions := Exchanging(found, Forward(peer, request), IssuedId(), ResponseReceived(0, response));
  }

  /** For every addressed request there is a run in which a caller runs the handler and serves it from a peer. */
  lemma {:induction false} SomeRunServes(header: Option<string>, networks: map<string, Registry.NetworkConfig>,
                                         a: Proxy.Address, payload: Bytes, peer: Network.PeerId,
                                         request: ProxyRequest, response: ProxyResponse)
    returns (actions: seq<Action>, up: Proxy.Upstream, targets: seq<Proxy.DnsRecord>, contacts: seq<nat>)
    requires Proxy.AddressedTo(header, networks, a)
    ensures After(actions).Some? && Undisturbed(actions, 0)
    ensures Proxy.RoutedTo(header, networks, up, targets) && Proxy.Publishes(up, a, targets)
    ensures Proxy.Served(up, targets, Ok(response)) && Proxy.Contacted(up, targets, contacts)
    ensures RanHandler(Conversation(actions, 0), RequestTld(header), up, a, targets, contacts)
    ensures |targets| == 1 && targets[0].PeerId? && Proxy.FirstToAnswer(up, targets, 0)
  {
    up, targets, contacts := Answering(payload, a.sub, peer, response), [Proxy.DnsRecord.PeerId("peer")], [0];
    AnsweringServes(a, payload, peer, response);
    actions := TwoExchanges(RequestTld(header), a.base, payload, peer, request, response);
    AnsweredTalkRunsHandler(Conversation(actions, 0), RequestTld(header), a, payload, peer, request, response);
  }
}
