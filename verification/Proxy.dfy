/**
 One run of the request handler (`handle_proxy_request`): which network and which domain a
 request is routed to, which records of the zone are its targets, and the failover over them.
 */
module Proxy {
  import opened Wrappers
  import opened Network
  import Text
  import HostNames
  import Registry

  datatype AtlasError =
    | InvalidProxyRequest
    | TldBlacklisted
    | NetworkInitFailed
    | DnsResolutionFailed
    | ProxyTargetFailed

  datatype DnsRecord =
    | A(v4: nat)
    | AAAA(v6: nat)
    | CNAME(name: string)
    | TXT(text: string)
    | PeerId(peer: string)
    | KID(kid: string)
    | IPFS(cid: string)
    | Other

  type Zone = map<string, seq<DnsRecord>>

  /**
   Everything outside the handler: whether a swarm can be had; what comes back on the oneshot
   of the record query, nothing when the command could not be sent or the oneshot was dropped;
   opening a payload (parse, signature check for a network id, zone parse); whether the body
   can be read; the parse of a peer string; for each target, whether the request to a peer goes
   onto the channel and what comes back on its oneshot, or what the gateway answers; and whether
   an answer can be turned into a response.
   */
  datatype Upstream = Upstream(
    swarmOk: bool,
    query: string -> Option<Reply>,
    openZone: (Bytes, string) -> Option<Zone>,
    bodyOk: bool,
    parsePeer: string -> Option<Network.PeerId>,
    sends: (nat, Network.PeerId) -> bool,
    ask: (nat, Network.PeerId) -> Option<Reply>,
    gateway: (nat, string) -> Option<ProxyResponse>,
    wellFormed: ProxyResponse -> bool)

  /** What the handler makes of a reply to its record query. */
  function RecordIn(reply: Option<Reply>): Option<Bytes> {
    match reply
    case Some(RecordReply(record)) => record
    case _ => None
  }

  /** What it makes of a reply to a proxy request. */
  function ResponseIn(reply: Option<Reply>): Option<ProxyResponse> {
    match reply
    case Some(ProxyReply(response)) => response
    case _ => None
  }

  // ---------------------------------------------------------------- the zone

  /** The entry for a subdomain; "www" stands in for a missing "@". */
  function ChosenEntry(zone: Zone, sub: string): Option<seq<DnsRecord>> {
    if sub in zone then Some(zone[sub])
    else if sub == "@" && "www" in zone then Some(zone["www"])
    else None
  }

  predicate IsTarget(r: DnsRecord) {
    r.IPFS? || r.PeerId?
  }

  function Targets(records: seq<DnsRecord>): seq<DnsRecord> {
    if records == [] then []
    else
      var last := records[|records| - 1];
      Targets(records[..|records| - 1]) + if IsTarget(last) then [last] else []
  }

  /** Where each target stands in the zone entry. */
  function TargetPositions(records: seq<DnsRecord>): seq<nat> {
    if records == [] then []
    else
      var n := |records| - 1;
      TargetPositions(records[..n]) + if IsTarget(records[n]) then [n] else []
  }

  /** The targets are the IPFS and PeerId records of the entry, all of them, in their order. */
  lemma {:induction false} TargetsKeepOrder(records: seq<DnsRecord>)
    ensures var at := TargetPositions(records); var targets := Targets(records);
            && |at| == |targets|
            && (forall k :: 0 <= k < |at| ==> at[k] < |records| && targets[k] == records[at[k]] && IsTarget(targets[k]))
            && (forall j, k :: 0 <= j < k < |at| ==> at[j] < at[k])
            && (forall i :: 0 <= i < |records| && IsTarget(records[i]) ==> i in at)
  {
    if records != [] {
      TargetsKeepOrder(records[..|records| - 1]);
    }
  }

  method CollectTargets(records: seq<DnsRecord>) returns (targets: seq<DnsRecord>)
    ensures targets == Targets(records)
  {
    targets := [];
    for i := 0 to |records|
      invariant targets == Targets(records[..i])
    {
      assert records[..i + 1][..i] == records[..i];
      match records[i] {
        case IPFS(_) => targets := targets + [records[i]];
        case PeerId(_) => targets := targets + [records[i]];
        case _ =>
      }
    }
    assert records[..|records|] == records;
  }

  // ---------------------------------------------------------------- failover

  /** A peer is passed over when its name does not parse or the request does not get onto the channel. */
  predicate CanBeContacted(up: Upstream, targets: seq<DnsRecord>, i: nat)
    requires i < |targets|
  {
    match targets[i]
    case IPFS(_) => true
    case PeerId(peer) => up.parsePeer(peer).Some? && up.sends(i, up.parsePeer(peer).value)
    case _ => false
  }

  /** What the target at `i` answers, if it is contacted. */
  function Answer(up: Upstream, targets: seq<DnsRecord>, i: nat): Option<ProxyResponse>
    requires i < |targets|
  {
    match targets[i]
    case IPFS(cid) => up.gateway(i, cid)
    case PeerId(peer) =>
      (match up.parsePeer(peer)
       case Some(id) => if up.sends(i, id) then ResponseIn(up.ask(i, id)) else None
       case None => None)
    case _ => None
  }

  lemma PeerAnswerIsReply(up: Upstream, targets: seq<DnsRecord>, i: nat, id: Network.PeerId)
    requires i < |targets| && targets[i].PeerId? && up.parsePeer(targets[i].peer) == Some(id)
    requires up.ask(i, id).Some? && Answer(up, targets, i).Some?
    ensures up.ask(i, id).value == ProxyReply(Answer(up, targets, i))
  {
  }

  lemma PeerAnswerWasGiven(up: Upstream, targets: seq<DnsRecord>, i: nat)
    requires i < |targets| && targets[i].PeerId? && Answer(up, targets, i).Some?
    ensures up.parsePeer(targets[i].peer).Some? && up.ask(i, up.parsePeer(targets[i].peer).value).Some?
  {
  }

  predicate NoneAnswers(up: Upstream, targets: seq<DnsRecord>, n: nat)
    requires n <= |targets|
  {
    forall j :: 0 <= j < n ==> Answer(up, targets, j).None?
  }

  /** The target at `i` is the first that answers. */
  predicate FirstToAnswer(up: Upstream, targets: seq<DnsRecord>, i: nat)
    requires i < |targets|
  {
    NoneAnswers(up, targets, i) && Answer(up, targets, i).Some?
  }

  /** The result: the response of the first target that answers, or a failure if it is malformed or there is none. */
  ghost predicate Served(up: Upstream, targets: seq<DnsRecord>, result: Result<ProxyResponse, AtlasError>) {
    && (result.Ok? ==> exists i :: 0 <= i < |targets| && FirstToAnswer(up, targets, i)
                                   && Answer(up, targets, i).value == result.value && up.wellFormed(result.value))
    && (result.Err? ==>
          && result.error == ProxyTargetFailed
          && forall i :: 0 <= i < |targets| && FirstToAnswer(up, targets, i)
                         ==> !up.wellFormed(Answer(up, targets, i).value))
  }

  ghost predicate Ascending(s: seq<nat>) {
    forall j, k :: 0 <= j < k < |s| ==> s[j] < s[k]
  }

  /**
   Who is contacted: in ascending order, exactly the targets that can be contacted and
   before which no target answers.  So the first that answers is the last contacted.
   */
  ghost predicate Contacted(up: Upstream, targets: seq<DnsRecord>, contacts: seq<nat>) {
    && Ascending(contacts)
    && forall i: nat :: i in contacts <==>
         i < |targets| && CanBeContacted(up, targets, i) && NoneAnswers(up, targets, i)
  }

  predicate SameMembers(a: seq<nat>, b: seq<nat>) {
    (forall x <- a :: x in b) && (forall x <- b :: x in a)
  }

  /** The front of an ascending list lacks its last element only, which is the greatest. */
  lemma LastIsGreatest(s: seq<nat>)
    requires s != [] && Ascending(s)
    ensures forall x <- s :: x <= s[|s| - 1]
    ensures forall x <- s :: x in s[..|s| - 1] <==> x != s[|s| - 1]
    ensures forall x <- s[..|s| - 1] :: x in s
  {
    assert s == s[..|s| - 1] + [s[|s| - 1]];
  }

  lemma LastsAgree(a: seq<nat>, b: seq<nat>)
    requires a != [] && b != [] && Ascending(a) && Ascending(b) && SameMembers(a, b)
    ensures a[|a| - 1] == b[|b| - 1] && SameMembers(a[..|a| - 1], b[..|b| - 1])
  {
    LastIsGreatest(a);
    LastIsGreatest(b);
    assert a[|a| - 1] in a && b[|b| - 1] in b;
    var front, other := a[..|a| - 1], b[..|b| - 1];
    forall x <- front
      ensures x in other
    {
      assert x in a && x in b;
    }
    forall x <- other
      ensures x in front
    {
      assert x in b && x in a;
    }
  }

  lemma {:induction false} AscendingIsDetermined(a: seq<nat>, b: seq<nat>)
    requires Ascending(a) && Ascending(b) && SameMembers(a, b)
    ensures a == b
  {
    assert a != [] ==> a[0] in a;
    assert b != [] ==> b[0] in b;
    if a != [] && b != [] {
      LastsAgree(a, b);
      AscendingIsDetermined(a[..|a| - 1], b[..|b| - 1]);
      assert a == a[..|a| - 1] + [a[|a| - 1]] && b == b[..|b| - 1] + [b[|b| - 1]];
    }
  }

  /** Result and contacts of a failover are determined by what the targets would answer. */
  lemma FailoverIsDetermined(up: Upstream, targets: seq<DnsRecord>, a: seq<nat>, b: seq<nat>,
                             r: Result<ProxyResponse, AtlasError>, s: Result<ProxyResponse, AtlasError>)
    requires Served(up, targets, r) && Served(up, targets, s)
    requires Contacted(up, targets, a) && Contacted(up, targets, b)
    ensures r == s && a == b
  {
    if i, j :| 0 <= i < |targets| && 0 <= j < |targets|
               && FirstToAnswer(up, targets, i) && FirstToAnswer(up, targets, j) {
      assert i == j;
    }
    AscendingIsDetermined(a, b);
  }

  /** Contacting, in order, those of the first `n` that can be contacted, and stopping at the first answer. */
  lemma ContactsAreAll(up: Upstream, targets: seq<DnsRecord>, n: nat, contacts: seq<nat>)
    requires n <= |targets| && Ascending(contacts)
    requires forall j: nat :: j in contacts <==> j < n && CanBeContacted(up, targets, j)
    requires n > 0 ==> NoneAnswers(up, targets, n - 1)
    requires n < |targets| ==> n > 0 && Answer(up, targets, n - 1).Some?
    ensures Contacted(up, targets, contacts)
  {
    forall i | 0 <= i < |targets|
      ensures NoneAnswers(up, targets, i) <==> i < n
    {
      if i >= n {
        assert Answer(up, targets, n - 1).Some?;
      }
    }
  }

  /** Asks one target, if it can be contacted. */
  method Contact(up: Upstream, targets: seq<DnsRecord>, i: nat)
    returns (answer: Option<ProxyResponse>, ghost contacted: bool)
    requires i < |targets|
    ensures answer == Answer(up, targets, i)
    ensures contacted == CanBeContacted(up, targets, i)
  {
    match targets[i] {
      case IPFS(cid) =>
        contacted := true;
        answer := up.gateway(i, cid);
      case PeerId(peer) =>
        var parsed := up.parsePeer(peer);
        contacted := parsed.Some? && up.sends(i, parsed.value);
        answer := None;
        if parsed.Some? && up.sends(i, parsed.value) {
          answer := ResponseIn(up.ask(i, parsed.value));
        }
      case _ =>
        contacted := false;
        answer := None;
    }
  }

  lemma FirstAnswerIsServed(up: Upstream, targets: seq<DnsRecord>, k: nat, response: ProxyResponse)
    requires k < |targets| && FirstToAnswer(up, targets, k) && Served(up, targets, Ok(response))
    ensures Answer(up, targets, k) == Some(response)
  {
    var i :| 0 <= i < |targets| && FirstToAnswer(up, targets, i) && Answer(up, targets, i).value == response;
    assert i == k;
  }

  lemma FirstAnswerWasContacted(up: Upstream, targets: seq<DnsRecord>, k: nat, contacts: seq<nat>)
    requires k < |targets| && FirstToAnswer(up, targets, k) && Contacted(up, targets, contacts)
    ensures k in contacts
  {
  }

  method Failover(up: Upstream, targets: seq<DnsRecord>)
    returns (result: Result<ProxyResponse, AtlasError>, ghost contacts: seq<nat>)
    ensures Served(up, targets, result)
    ensures Contacted(up, targets, contacts)
  {
    contacts := [];
    var i := 0;
    while i < |targets|
      invariant i <= |targets| && NoneAnswers(up, targets, i) && Ascending(contacts)
      invariant forall j: nat :: j in contacts <==> j < i && CanBeContacted(up, targets, j)
    {
      var answer, contacted := Contact(up, targets, i);
      if contacted {
        assert forall k :: 0 <= k < |contacts| ==> contacts[k] in contacts;
        contacts := contacts + [i];
      }
      i := i + 1;
      if answer.Some? {
        ContactsAreAll(up, targets, i, contacts);
        assert FirstToAnswer(up, targets, i - 1);
        result := if up.wellFormed(answer.value) then Ok(answer.value) else Err(ProxyTargetFailed);
        return;
      }
    }
    ContactsAreAll(up, targets, i, contacts);
    result := Err(ProxyTargetFailed);
  }

  // ---------------------------------------------------------------- the whole handler

  /** What a request asks for: the network id that the registry holds for its TLD, the base domain and the subdomain. */
  datatype Address = Address(networkId: string, base: string, sub: string)

  /** The header names a host with a TLD, and the registry knows the TLD. */
  predicate KnownTld(header: Option<string>, networks: map<string, Registry.NetworkConfig>) {
    HostNames.HostAndTld(header).Some? && HostNames.HostAndTld(header).value.1 in networks
  }

  ghost predicate AddressedTo(header: Option<string>, networks: map<string, Registry.NetworkConfig>, a: Address) {
    && KnownTld(header, networks)
    && var (full, tld) := HostNames.HostAndTld(header).value;
    && networks[tld].networkId == a.networkId
    && HostNames.Extract(full, tld) == Some((a.base, a.sub))
  }

  /** Besides, the host divides into a base domain and a subdomain. */
  ghost predicate Addressed(header: Option<string>, networks: map<string, Registry.NetworkConfig>) {
    exists a :: AddressedTo(header, networks, a)
  }

  /** A payload opens, for the network, to a zone that has these targets for the subdomain. */
  ghost predicate OpensTo(up: Upstream, a: Address, payload: Bytes, targets: seq<DnsRecord>) {
    var zone := up.openZone(payload, a.networkId);
    && zone.Some?
    && ChosenEntry(zone.value, a.sub).Some?
    && targets == Targets(ChosenEntry(zone.value, a.sub).value)
    && targets != []
  }

  /** The record under the base domain is such a payload. */
  ghost predicate Publishes(up: Upstream, a: Address, targets: seq<DnsRecord>) {
    RecordIn(up.query(a.base)).Some? && OpensTo(up, a, RecordIn(up.query(a.base)).value, targets)
  }

  /** Where a request goes. */
  ghost predicate RoutedTo(header: Option<string>, networks: map<string, Registry.NetworkConfig>, up: Upstream,
                           targets: seq<DnsRecord>) {
    up.swarmOk && exists a :: AddressedTo(header, networks, a) && Publishes(up, a, targets)
  }

  ghost predicate Routable(header: Option<string>, networks: map<string, Registry.NetworkConfig>, up: Upstream) {
    exists targets :: RoutedTo(header, networks, up, targets)
  }

  predicate Refused(result: Result<ProxyResponse, AtlasError>, error: AtlasError) {
    result.Err? && result.error == error
  }

  lemma OneAddress(header: Option<string>, networks: map<string, Registry.NetworkConfig>, a: Address)
    requires AddressedTo(header, networks, a)
    ensures forall b :: AddressedTo(header, networks, b) ==> a == b
  {
  }

  /** The entry of the zone for a subdomain, as the handler looks it up. */
  method ChooseEntry(zone: Zone, sub: string) returns (records: Option<seq<DnsRecord>>)
    ensures records == ChosenEntry(zone, sub)
  {
    if sub in zone {
      return Some(zone[sub]);
    }
    if sub == "@" && "www" in zone {
      return Some(zone["www"]);
    }
    records := None;
  }

  /** The first part of the handler, which needs the registry alone. */
  method ReadAddress(header: Option<string>, registry: Registry.TldRegistry)
    returns (address: Result<Address, AtlasError>)
    ensures address.Ok? ==> AddressedTo(header, registry.networks, address.value)
    ensures address.Err? <==> !Addressed(header, registry.networks)
    ensures address.Err? ==> address.error == TldBlacklisted || address.error == InvalidProxyRequest
    ensures address.Err? && address.error == TldBlacklisted <==>
            HostNames.HostAndTld(header).Some? && !KnownTld(header, registry.networks)
  {
    var host := HostNames.HostAndTld(header);
    if host.None? {
      return Err(InvalidProxyRequest);
    }
    var (fullDomain, cleanTld) := host.value;
    var config := registry.GetConfig(cleanTld);
    if config.None? {
      return Err(TldBlacklisted);
    }
    var names := HostNames.Extract(fullDomain, cleanTld);
    if names.None? {
      return Err(InvalidProxyRequest);
    }
    var (baseDomain, subdomain) := names.value;
    address := Ok(Address(config.value.networkId, baseDomain, subdomain));
    assert AddressedTo(header, registry.networks, address.value);
  }

  /** The second part: the record query, the zone and its targets. */
  method FindTargets(up: Upstream, a: Address) returns (targets: Option<seq<DnsRecord>>)
    ensures targets.Some? ==> Publishes(up, a, targets.value)
    ensures targets.None? ==> forall other :: !Publishes(up, a, other)
  {
    var record := RecordIn(up.query(a.base));
    if record.None? {
      return None;
    }
    var zone := up.openZone(record.value, a.networkId);
    if zone.None? {
      return None;
    }
    var records := ChooseEntry(zone.value, a.sub);
    if records.None? {
      return None;
    }
    var found := CollectTargets(records.value);
    targets := if found == [] then None else Some(found);
  }

  /**
   A request is served by failover if it is routed and its body can be read; each error has
   its own exact cause, and without a failover no target is contacted.
   */
  method HandleProxyRequest(header: Option<string>, registry: Registry.TldRegistry, up: Upstream)
    returns (result: Result<ProxyResponse, AtlasError>, ghost contacts: seq<nat>)
    ensures forall targets :: RoutedTo(header, registry.networks, up, targets) && up.bodyOk ==>
              Served(up, targets, result)
    ensures forall targets :: RoutedTo(header, registry.networks, up, targets) && up.bodyOk ==>
              Contacted(up, targets, contacts)
    ensures !(Routable(header, registry.networks, up) && up.bodyOk) ==> contacts == []
    ensures result.Ok? || Refused(result, ProxyTargetFailed) <==> Routable(header, registry.networks, up) && up.bodyOk
    ensures Refused(result, TldBlacklisted) <==>
            HostNames.HostAndTld(header).Some? && !KnownTld(header, registry.networks)
    ensures Refused(result, NetworkInitFailed) <==> Addressed(header, registry.networks) && !up.swarmOk
    ensures Refused(result, DnsResolutionFailed) <==>
            Addressed(header, registry.networks) && up.swarmOk && !Routable(header, registry.networks, up)
    ensures Refused(result, InvalidProxyRequest) <==>
            || HostNames.HostAndTld(header).None?
            || (KnownTld(header, registry.networks) && !Addressed(header, registry.networks))
            || (Routable(header, registry.networks, up) && !up.bodyOk)
  {
    contacts := [];
    var address := ReadAddress(header, registry);
    if address.Err? {
      result := Err(address.error);
      return;
    }
    if !up.swarmOk {
      result := Err(NetworkInitFailed);
      return;
    }
    var targets := FindTargets(up, address.value);
    OneAddress(header, registry.networks, address.value);
    if targets.None? {
      result := Err(DnsResolutionFailed);
      return;
    }
    assert RoutedTo(header, registry.networks, up, targets.value);
    if !up.bodyOk {
      result := Err(InvalidProxyRequest);
      return;
    }
    result, contacts := Failover(up, targets.value);
  }

  // ---------------------------------------------------------------- the same in terms of zone and replies

  /** The zone's entry for the subdomain; for the apex, that of "www" if it has none of its own. */
  ghost predicate Entry(zone: Zone, sub: string, records: seq<DnsRecord>) {
    || (sub in zone && records == zone[sub])
    || (sub == "@" && "@" !in zone && "www" in zone && records == zone["www"])
  }

  /** The targets are the records at these positions, in order, and all IPFS and PeerId records stand there. */
  ghost predicate PickedAt(records: seq<DnsRecord>, targets: seq<DnsRecord>, at: seq<nat>) {
    && |at| == |targets| && Ascending(at)
    && (forall k :: 0 <= k < |at| ==> at[k] < |records| && targets[k] == records[at[k]])
    && (forall i: nat :: i in at <==> i < |records| && (records[i].IPFS? || records[i].PeerId?))
  }

  /** The record under the base domain is there, opens for the network, and its entry has the targets. */
  ghost predicate Lists(up: Upstream, a: Address, targets: seq<DnsRecord>) {
    exists payload, zone, records, at ::
      && up.query(a.base) == Some(RecordReply(Some(payload)))
      && up.openZone(payload, a.networkId) == Some(zone)
      && Entry(zone, a.sub, records) && PickedAt(records, targets, at) && targets != []
  }

  lemma {:induction false} TargetsArePicked(records: seq<DnsRecord>)
    ensures PickedAt(records, Targets(records), TargetPositions(records))
  {
    TargetsKeepOrder(records);
    var at := TargetPositions(records);
    forall i: nat | i in at
      ensures i < |records| && (records[i].IPFS? || records[i].PeerId?)
    {
      var k :| 0 <= k < |at| && at[k] == i;
      assert IsTarget(Targets(records)[k]);
    }
    forall i: nat | i < |records| && (records[i].IPFS? || records[i].PeerId?)
      ensures i in at
    {
      assert IsTarget(records[i]);
    }
  }

  lemma {:induction false} PickedOnce(records: seq<DnsRecord>, a: seq<DnsRecord>, b: seq<DnsRecord>,
                                      at: seq<nat>, bt: seq<nat>)
    requires PickedAt(records, a, at) && PickedAt(records, b, bt)
    ensures a == b
  {
    forall i <- at
      ensures i in bt
    {
      assert i < |records| && (records[i].IPFS? || records[i].PeerId?);
    }
    forall i <- bt
      ensures i in at
    {
      assert i < |records| && (records[i].IPFS? || records[i].PeerId?);
    }
    AscendingIsDetermined(at, bt);
  }

  lemma EntryIsChosen(zone: Zone, sub: string, records: seq<DnsRecord>)
    ensures Entry(zone, sub, records) <==> ChosenEntry(zone, sub).Some? && ChosenEntry(zone, sub).value == records
  {
  }

  /** What an address publishes, exactly. */
  lemma {:induction false} PublishesExactly(up: Upstream, a: Address, targets: seq<DnsRecord>)
    ensures Publishes(up, a, targets) <==> Lists(up, a, targets)
  {
    if Publishes(up, a, targets) {
      var payload := RecordIn(up.query(a.base)).value;
      var zone := up.openZone(payload, a.networkId).value;
      var records := ChosenEntry(zone, a.sub).value;
      EntryIsChosen(zone, a.sub, records);
      TargetsArePicked(records);
    }
    if payload, zone, records, at :|
        && up.query(a.base) == Some(RecordReply(Some(payload)))
        && up.openZone(payload, a.networkId) == Some(zone)
        && Entry(zone, a.sub, records) && PickedAt(records, targets, at) && targets != [] {
      EntryIsChosen(zone, a.sub, records);
      TargetsArePicked(records);
      PickedOnce(records, targets, Targets(records), at, TargetPositions(records));
    }
  }

  /** The target at `i` gives this response: the gateway does, or the peer whose request got onto the channel. */
  ghost predicate Gives(up: Upstream, targets: seq<DnsRecord>, i: nat, response: ProxyResponse) {
    && i < |targets|
    && (|| (targets[i].IPFS? && up.gateway(i, targets[i].cid) == Some(response))
        || (targets[i].PeerId? && exists id ::
              && up.parsePeer(targets[i].peer) == Some(id) && up.sends(i, id)
              && up.ask(i, id) == Some(ProxyReply(Some(response)))))
  }

  ghost predicate FirstGives(up: Upstream, targets: seq<DnsRecord>, k: nat, response: ProxyResponse) {
    Gives(up, targets, k, response) && forall j: nat, other :: j < k ==> !Gives(up, targets, j, other)
  }

  lemma AnswerExactly(up: Upstream, targets: seq<DnsRecord>, i: nat, response: ProxyResponse)
    requires i < |targets|
    ensures Gives(up, targets, i, response) <==>
            Answer(up, targets, i).Some? && Answer(up, targets, i).value == response
  {
  }

  lemma {:induction false} FirstAnswerExactly(up: Upstream, targets: seq<DnsRecord>, k: nat, response: ProxyResponse)
    ensures FirstGives(up, targets, k, response) <==>
            k < |targets| && FirstToAnswer(up, targets, k) && Answer(up, targets, k).value == response
  {
    if k < |targets| {
      AnswerExactly(up, targets, k, response);
      if FirstGives(up, targets, k, response) {
        forall j | 0 <= j < k
          ensures Answer(up, targets, j).None?
        {
          if Answer(up, targets, j).Some? {
            AnswerExactly(up, targets, j, Answer(up, targets, j).value);
          }
        }
      }
      if FirstToAnswer(up, targets, k) {
        forall j: nat, other | j < k
          ensures !Gives(up, targets, j, other)
        {
          AnswerExactly(up, targets, j, other);
        }
      }
    }
  }

  /** The result of a failover: a well-formed response that the first target to give one gives, or a failure. */
  ghost predicate Results(up: Upstream, targets: seq<DnsRecord>, result: Result<ProxyResponse, AtlasError>) {
    match result
    case Ok(response) => up.wellFormed(response) && exists k: nat :: FirstGives(up, targets, k, response)
    case Err(error) =>
      && error == ProxyTargetFailed
      && forall k: nat, response :: FirstGives(up, targets, k, response) ==> !up.wellFormed(response)
  }

  lemma {:induction false} ServedExactly(up: Upstream, targets: seq<DnsRecord>,
                                         result: Result<ProxyResponse, AtlasError>)
    ensures Served(up, targets, result) <==> Results(up, targets, result)
  {
    forall k: nat, response
      ensures FirstGives(up, targets, k, response) <==>
              k < |targets| && FirstToAnswer(up, targets, k) && Answer(up, targets, k).value == response
    {
      FirstAnswerExactly(up, targets, k, response);
    }
    match result {
      case Ok(response) =>
        if Served(up, targets, result) {
          var i :| 0 <= i < |targets| && FirstToAnswer(up, targets, i) && Answer(up, targets, i).value == response;
          assert FirstGives(up, targets, i, response);
        }
      case Err(_) =>
        forall k | 0 <= k < |targets| && FirstToAnswer(up, targets, k)
          ensures FirstGives(up, targets, k, Answer(up, targets, k).value)
        {
        }
    }
  }

  /** A zone with an entry for "www" only serves the apex from it, and no other subdomain. */
  lemma {:induction false} WwwStandsInForApex(up: Upstream, a: Address, payload: Bytes, cid: string)
    requires up.query(a.base) == Some(RecordReply(Some(payload)))
    requires up.openZone(payload, a.networkId) == Some(map["www" := [IPFS(cid)]])
    ensures a.sub == "@" || a.sub == "www" ==> Publishes(up, a, [IPFS(cid)])
    ensures a.sub != "@" && a.sub != "www" ==> forall targets :: !Publishes(up, a, targets)
  {
    var zone: Zone := map["www" := [IPFS(cid)]];
    var only := [IPFS(cid)];
    if a.sub == "@" || a.sub == "www" {
      assert Entry(zone, a.sub, only);
      assert PickedAt(only, only, [0]);
      PublishesExactly(up, a, only);
    }
    forall targets | a.sub != "@" && a.sub != "www"
      ensures !Publishes(up, a, targets)
    {
      PublishesExactly(up, a, targets);
    }
  }

  /** From the raw header: a host of three or more labels asks for its last two, for the network of the last one. */
  lemma {:induction false} HeaderIsAddressed(header: string, networks: map<string, Registry.NetworkConfig>,
                                             sub: string, name: string, t: string)
    requires HostNames.HeaderText(header)
    requires Text.Lower(Text.Split(header, ':')[0]) == HostNames.Joined(sub, name, t)
    requires Text.Lacks(name, '.') && Text.Lacks(t, '.') && HostNames.ReadsBack(sub, name, t)
    requires "." + t in networks
    ensures AddressedTo(Some(header), networks, Address(networks["." + t].networkId, name + "." + t, sub))
  {
    HostNames.HeaderNamesItsDomain(header, sub, name, t);
  }

  /** And a host of two labels asks for the whole of it, with subdomain "@". */
  lemma {:induction false} ApexIsAddressed(header: string, networks: map<string, Registry.NetworkConfig>,
                                           name: string, t: string)
    requires HostNames.HeaderText(header)
    requires Text.Lower(Text.Split(header, ':')[0]) == name + ("." + t)
    requires Text.Lacks(name, '.') && Text.Lacks(t, '.') && name != "" && "." + t in networks
    ensures AddressedTo(Some(header), networks, Address(networks["." + t].networkId, name + ("." + t), "@"))
  {
    HostNames.HeaderNamesApex(header, name, t);
  }

  lemma {:induction false} SomeGives(up: Upstream, targets: seq<DnsRecord>, i: nat)
    requires i < |targets|
    ensures Answer(up, targets, i).Some? <==> exists response :: Gives(up, targets, i, response)
  {
    if Answer(up, targets, i).Some? {
      AnswerExactly(up, targets, i, Answer(up, targets, i).value);
    }
    if response :| Gives(up, targets, i, response) {
      AnswerExactly(up, targets, i, response);
    }
  }

  lemma {:induction false} NoneGives(up: Upstream, targets: seq<DnsRecord>, n: nat)
    requires n <= |targets|
    ensures NoneAnswers(up, targets, n) <==> forall j: nat, response :: j < n ==> !Gives(up, targets, j, response)
  {
    if NoneAnswers(up, targets, n) {
      forall j: nat, response | j < n
        ensures !Gives(up, targets, j, response)
      {
        AnswerExactly(up, targets, j, response);
      }
    }
    if forall j: nat, response :: j < n ==> !Gives(up, targets, j, response) {
      forall j | 0 <= j < n
        ensures Answer(up, targets, j).None?
      {
        SomeGives(up, targets, j);
      }
    }
  }

  lemma {:induction false} ReachedExactly(up: Upstream, targets: seq<DnsRecord>, i: nat)
    requires i < |targets|
    ensures CanBeContacted(up, targets, i) <==>
            targets[i].IPFS? || (targets[i].PeerId? && exists id ::
              up.parsePeer(targets[i].peer) == Some(id) && up.sends(i, id))
  {
  }

  /** Who is contacted, exactly: the targets before which none gives a response, gateways and reachable peers alike. */
  lemma {:induction false} ContactedExactly(up: Upstream, targets: seq<DnsRecord>, contacts: seq<nat>, i: nat)
    requires Contacted(up, targets, contacts)
    ensures i in contacts <==>
            && i < |targets|
            && (targets[i].IPFS? || (targets[i].PeerId? && exists id ::
                  up.parsePeer(targets[i].peer) == Some(id) && up.sends(i, id)))
            && forall j: nat, response :: j < i ==> !Gives(up, targets, j, response)
  {
    if i < |targets| {
      NoneGives(up, targets, i);
      ReachedExactly(up, targets, i);
    }
  }
}
