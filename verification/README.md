# Verified model of Kinetic Atlas

Kinetic Atlas is an HTTP proxy that resolves decentralised domains over several libp2p
networks, each started on demand. This project models its four interacting parts in Dafny
and proves what they guarantee together:

- **Swarm lifecycle and node event loop** (`Network`, `NetworkHistory`, `SwarmManager`,
  `AtlasSystem`, `AtlasGuarantees`, `NodeRelease`, `EndToEnd`, `ServedRun`). Request handlers race through the double-checked
  "get or spawn", a collector evicts idle handles, and each node selects between commands and
  swarm events with three maps of waiting oneshot senders. The lock sections and the event
  loop are imperative classes proved against step functions; `AtlasSystem` runs those step
  functions in arbitrary interleavings of any number of callers, nodes, collections and clock
  advances. `NodeRelease` shows that eviction frees a node, `EndToEnd` follows what a request is
  served from back to events of the nodes of its own TLD, and `ServedRun` exhibits such a run.
- **kintree discovery** (`DnsTree`, `DnsRecords`, `DnsWalk`). The TXT grammar and the bounded traversal of an
  untrusted tree, for an arbitrary resolver, with both limits as parameters.
- **Hosts, registry and failover** (`HostNames`, `Registry`, `Proxy`). From a raw Host header to
  registry key, DHT key, zone entry and the first target that answers.
- **Updater** (`Updater`). The whole-run behaviour of the signed download loop, its hot reload of
  the registry and its backoff.

Besides its functions each part has laws that name none of them: they say in the literal text,
constants and replies of the protocols what is read, loaded, served and written.

`Text` holds the string operations of the Rust standard library the parsers use, and
`Wrappers` the option and result types. `dafny verify dfyconfig.toml` checks everything.

## What the outside world may do

These are the only assumptions; everything else about the environment is arbitrary.

- libp2p never issues the same query id, or the same request id, twice in one node (`FreshIds`).
  `ResponderConservation` and `LoopRefinesHistory` hold without this.
- The result of a dial, the parse of a peer string, and every event, including events for ids
  nobody waits for, are arbitrary and may come at any time.
- A channel's `recv` yields nothing only when its queue is empty and no sender is left: neither
  the table nor a caller holds one. A queue holds 32 commands.
- A lock section is atomic, the clock never runs backwards, and instants are nanoseconds.
- A caller that holds a channel may put any commands on it, one at a time, may wait as long as it
  likes and may vanish at any point (a client that disconnects). This covers the handler's own
  order of one record query followed by proxy requests.
- A resolver is a function from names to lists of TXT strings, a failed lookup being the empty
  list. Since no hash is looked up twice, this loses nothing.
- Multiaddress, peer and JSON parsing and signature checks are arbitrary functions.
- Which file an item's name leads to is an arbitrary function of the name, so several names may
  lead to one file; a reload finds no directory, one it cannot list, or any list of files in any
  order. Nobody else changes the files between two syncs.
- A failed file write leaves the file untouched or leaves a prefix of the new contents; which of
  the two, and how much, is arbitrary.

## Findings

- The tests at `src/proxy.rs:409-430` assert that extracting from `sub.name.tld` always returns
  `name.tld` and `sub`. It does not when `name` equals the TLD's label, because
  `src/proxy.rs:367-382` strips the suffix repeatedly: `a.kin.kin` is read as `a.kin`
  (`DoubledTldIsMisread`). `ExtractionInvertsJoining` gives the exact condition.
- A registry key with an upper-case letter, an inner dot or a colon is loaded
  (`src/registry.rs:44-66`) but can never be hit, because the handler (`src/proxy.rs:54-81`)
  lower-cases the host, cuts it at `:` and takes its last label. `CapitalTldIsLoadedInVain` is an
  input and `RegistryKeyIsReachable` the exact condition.
- A pending peer lookup is dropped when the same peer is looked up again
  (`src/network.rs:174-175`); nothing else can drop a responder while the loop runs
  (`LookupOverwritten`, `DroppedExactlyWhenClobbered`).
- Which of several conflicting network files wins depends on directory order, and on nothing
  else (`src/registry.rs:36-66`). `DirectoryOrderDecides` is an input with two files and
  `OrderMattersOnlyForConflicts` the exact condition.
- The limits of the tree walk can hide reachable hashes (`src/dns_tree.rs:56-59`). Because a hash
  is popped before the limits are looked at, the walk may even end with an empty stack:
  `EmptyStackIsNotComplete` has fifty flat addresses and a root record that is never followed.
  `CompleteExactly` and `ProgramIsComplete` give the exact condition, on the zone and the limits:
  each lookup of the depth-first search is preceded by fewer than 20 lookups and 50 addresses.
- A failed write can leave part of a signed file in its place, for which no signature exists
  (`src/updater.rs:150-154`, `TornWriteIsUnsafe`). `RunIsSafeExactly` gives the exact condition
  under which the directory only ever holds initial or verified bytes.
- The repository's notes (`README.md:13`, `ARCHITECTURE.md:14-38`) describe an older DNS server
  that joins all networks at start-up. The model follows the code, which is an HTTP proxy
  (`src/proxy.rs:50`) that starts a network on first use (`src/swarm_manager.rs:58-120`). The
  example network file at `ARCHITECTURE.md:91-99` also lacks the `version` field that
  `src/types.rs:41` requires; the JSON format is not modelled.

## Model

| member | source | states |
|---|---|---|
| Network.RemoteIp | src/network.rs:229-236 | the scan of a multiaddress yields its last IP component, or nothing when it has none |
| Network.KineticAtlasNode.OnCommand | src/network.rs:164-187 | handling a command parks its responder in the map of its kind, or answers it at once when the peer string or the dial fails |
| Network.KineticAtlasNode.OnEvent | src/network.rs:195-249 | an event answers and removes exactly the responder that waits under its id or peer |
| Network.KineticAtlasNode.Stop | src/network.rs:188-191 | leaving the loop loses everybody who still waits |
| Network.KineticAtlasNode.Run | src/network.rs:155-253 | for any history of select choices the three maps, the replies and the losses are those of the replayed history |
| NetworkHistory.ResponderConservation | src/network.rs:157-243 | in every history, whatever ids are issued, each received responder is pending, answered or dropped, with exact multiplicity |
| NetworkHistory.LoopRefinesHistory | src/network.rs:161-250 | the maps implement a history specification that follows one responder without any map |
| NetworkHistory.OccupantWasReceived | src/network.rs:157-187 | whoever occupies a slot was put there by a command whose fate is still open |
| NetworkHistory.FateIsFirstSettlement | src/network.rs:196-243 | a command's fate is decided by the first choice that settles its slot and never changes after |
| NetworkHistory.ExactlyOneFate | src/network.rs:157-243 | with one responder per command, each is in exactly one place and is answered at most once, with the reply its fate names |
| NetworkHistory.DroppedExactlyWhenClobbered | src/network.rs:171-191 | a responder is dropped if and only if the loop ends or the same peer is looked up again before anything else settles its slot |
| NetworkHistory.GetRecordAnswer | src/network.rs:165-170 | a record query gets the record, or none, of the first progress event with its id |
| NetworkHistory.ProxyRequestAnswer | src/network.rs:183-187 | a proxy request gets the response, or none, of the first response or outbound failure with its id |
| NetworkHistory.LookupAnswer | src/network.rs:226-244 | a dialled lookup gets the last IP of the first connection to that peer, or none on a dial error, unless overwritten before |
| NetworkHistory.LookupAnswerExactly | src/network.rs:171-182 | a lookup is answered with nothing at once when the peer string or the dial fails, and otherwise exactly as the first event about the peer says, unless clobbered before |
| NetworkHistory.SilentEvent | src/network.rs:213-248 | an incoming request, a dial error without a peer and any other event answer nobody |
| NetworkHistory.ForeignEventIgnored | src/network.rs:196-248 | an event nobody waits for changes nothing, now or in any continuation |
| NetworkHistory.DrainedTrace | src/network.rs:196-243 | if every slot ever taken is later completed, all three maps end empty |
| SwarmManager.Manager.TryGet | src/swarm_manager.rs:63-69 | the first lock section hands out and refreshes a mapped channel, and changes nothing otherwise |
| SwarmManager.Manager.GetOrSpawn | src/swarm_manager.rs:83-119 | the second lock section checks again and only then spawns and inserts |
| SwarmManager.Manager.CollectGarbage | src/swarm_manager.rs:40-52 | the collector keeps exactly the handles that are not idle, so right after it none has been idle for more than 600 s |
| SwarmManager.TouchIsSound | src/swarm_manager.rs:65-68 | handing out a channel keeps the counts, the safety window and channel sharing |
| SwarmManager.InsertIsSound | src/swarm_manager.rs:90-113 | so does spawning a node |
| SwarmManager.CollectIsSound | src/swarm_manager.rs:45-52 | so does a collection, after which no handle is idle beyond the timeout |
| AtlasSystem.SendersComeFromSenders | src/swarm_manager.rs:65-68 | no step gives a new sender to a node that had none left |
| NodeRelease.NoSenderForGood | src/swarm_manager.rs:45-52 | a node without a sender never has one again, in any continuation of any run |
| NodeRelease.StoppedForGood | src/network.rs:188-191 | a loop that ended never runs again |
| NodeRelease.UnusedNodeCanEnd | src/network.rs:161-191 | from every reachable state, a running node without senders can take what is queued and then ends on its closed channel, without a shutdown |
| NodeRelease.EvictedNodeCanEnd | src/swarm_manager.rs:45-52 | the same for every running node that left the table, once its users have left |
| AtlasSystem.UsedNodeKeepsRunning | src/network.rs:188-191 | a node that somebody can still reach stops only by a shutdown |
| AtlasSystem.InvariantHolds | src/swarm_manager.rs:58-120 | table, nodes, channels and callers stay consistent in every reachable state of every interleaving |
| AtlasGuarantees.UsedNodeIsRunning | src/proxy.rs:143-155 | the node behind a channel a caller holds is running and belongs to the caller's TLD, unless a shutdown reached it |
| AtlasGuarantees.AwaitedReplyIsNeverLost | src/proxy.rs:317-331 | whatever was evicted meanwhile, an awaited responder is in exactly one place, and a record query or proxy request is never dropped |
| AtlasGuarantees.ReplyIsTheFateOfTheCommand | src/proxy.rs:157-164 | the reply a caller gets is the one the node's history fixes for its own command |
| AtlasGuarantees.CommandsAreTakenInOrder | src/swarm_manager.rs:90 | a node takes the commands in the order in which callers put them on its channel, none twice and none left out, and at most 32 wait |
| AtlasGuarantees.WaitingCallerCanWake | src/proxy.rs:157-158 | from every reachable state there is a continuation in which a waiting caller wakes up |
| AtlasGuarantees.SpawnsCountExactly | src/swarm_manager.rs:83-113 | for every TLD, nodes ever spawned equal evictions plus one if it is mapped |
| AtlasGuarantees.LockSectionHandsOut | src/swarm_manager.rs:63-113 | a caller that leaves a lock section with a channel holds the one this section entered in the log, at that time |
| AtlasGuarantees.FirstLockSection | src/swarm_manager.rs:63-69 | a caller of a mapped TLD leaves the first section with the mapped node and a refreshed handle, any other goes on to resolve |
| AtlasGuarantees.SecondLockSection | src/swarm_manager.rs:83-119 | a caller leaves the second section with the node mapped meanwhile, with the newly spawned one, or, if it could not be made, with nothing |
| AtlasGuarantees.LoserSharesWinnersNode | src/swarm_manager.rs:84-88 | of two callers that resolve one seed domain, the second gets the node of the first, and at most one is spawned |
| AtlasGuarantees.SafetyWindow | src/swarm_manager.rs:41-52 | the channel of any caller that got it at most 600 s ago is still its TLD's mapped channel |
| AtlasGuarantees.RacingCallersShareTheChannel | src/swarm_manager.rs:84-88 | any two callers of one TLD with no eviction of it between their lock sections use the same node |
| AtlasGuarantees.NoIdleHandleAfterCollection | src/swarm_manager.rs:41-52 | a collection in any reachable state removes exactly the handles idle for more than 600 s, in nanoseconds, and changes no other |
| AtlasGuarantees.EvictionMidFlight | src/swarm_manager.rs:45-52 | a run in which the handle is evicted while a caller waits on the still running node |
| AtlasGuarantees.LookupOverwritten | src/network.rs:174-175 | two lookups of one peer drop the first responder while the loop runs |
| EndToEnd.RecordComesFromTheNetwork | src/proxy.rs:157-164 | a caller is given a record, or none, if and only if the first progress event of its own query carried that |
| EndToEnd.ResponseComesFromTheNetwork | src/proxy.rs:331-347 | a caller is given a response, or none, if and only if the first event about its own request carried that |
| EndToEnd.RoutingZoneWasFound | src/proxy.rs:142-219 | the zone with the request's targets was opened, for the network registered under the request's TLD, from the record that a running node of that TLD found for the caller's own query |
| EndToEnd.ServedResponseArrived | src/proxy.rs:317-345 | the response a request is served with, if a peer gave it, arrived in the first event about the caller's own request to that peer |
| EndToEnd.ServedFromItsOwnNetwork | src/proxy.rs:142-345 | a caller of the system that runs the handler and serves a request does so from a zone, and unless a gateway answered from a response, that running nodes of the request's own TLD received for it, no shutdown having reached them |
| ServedRun.SomeRunServes | src/proxy.rs:50-360 | for every addressed request there is a run in which a caller runs the handler and serves it from a peer |
| DnsTree.ReadRoot | src/dns_tree.rs:29-46 | the root scan returns the last root hash and the flat addresses in order |
| DnsTree.ReadRecord | src/dns_tree.rs:69-83 | one record adds its non-empty child hashes or its parsed leaf |
| DnsTree.ReadBranch | src/dns_tree.rs:66-86 | a response appends its children to the stack and its leaves to the addresses |
| DnsTree.ResolveWithin | src/dns_tree.rs:48-90 | the loop computes the bounded walk and ends for every resolver, by remaining lookups and then stack length |
| DnsTree.ResolveDnsTree | src/dns_tree.rs:11-91 | the walk with the limits 20 and 50 |
| DnsTree.BranchRoundTrip | src/dns_tree.rs:70-76 | a branch record reads back as its hashes if and only if they are non-empty, comma-free and the first does not start with the prefix |
| DnsTree.RootRoundTrip | src/dns_tree.rs:34-38 | a root record reads back as its hash if and only if the hash is one word or all white space |
| DnsRecords.LeafRoundTrip | src/dns_tree.rs:77-82 | a leaf record adds what the text behind "kintree-leaf:" parses to, however often the prefix is repeated |
| DnsRecords.BranchRecord | src/dns_tree.rs:69-76 | a record "kintree-branch:" with proper hashes adds them in order and no address |
| DnsRecords.RootRecord | src/dns_tree.rs:33-38 | a record "kintree-root:v1 ... e=hash ..." carries the first word behind the mark, whatever white space ends it |
| DnsRecords.WhiteSpaceCharacters | src/dns_tree.rs:35 | the characters that end the hash are those with the Unicode property White_Space |
| DnsRecords.RootRecordOrNot | src/dns_tree.rs:33-34 | a record carries a hash if and only if it has the prefix and the mark |
| DnsRecords.LastRootCounts | src/dns_tree.rs:27-38 | of several root records the last that carries a hash counts |
| DnsRecords.FlatRecord | src/dns_tree.rs:39-43 | a record at the root adds an address if and only if it begins with "/ip4/" or "/ip6/", and then what all of it parses to |
| DnsRecords.TwoLevelTreeResolves | src/dns_tree.rs:11-91 | a whole tree of a root, a branch and leaves, in literal records, resolves to its addresses in the order of the walk |
| DnsWalk.VisitedIsReachable | src/dns_tree.rs:56-88 | only reachable hashes are looked up, whatever ends the walk; a walk that no limit ends misses none, cycles included |
| DnsWalk.EveryAddressAccounted | src/dns_tree.rs:56-87 | addresses are the flat ones and the leaves of each looked-up hash once, in order; each hash is the root or a child of an earlier one |
| DnsWalk.AddressLimit | src/dns_tree.rs:57-59 | the total is the flat addresses alone or stays below the cutoff plus one response |
| DnsWalk.ProgramLimits | src/dns_tree.rs:53-59 | with the program's limits, at most 20 lookups and at most 49 addresses plus one response, or the flat ones |
| DnsWalk.LimitsTakeAPrefix | src/dns_tree.rs:56-59 | from any state, the limits only cut off the end of the unlimited walk |
| DnsWalk.StackRefinesRecursion | src/dns_tree.rs:56-88 | the loop with its stack makes the lookups of a recursive depth-first search, last child first |
| DnsWalk.ResolveIsPrefixOfSearch | src/dns_tree.rs:48-91 | over a finite zone, lookups and addresses are prefixes of the depth-first search's, whatever the limits |
| DnsWalk.SearchIsComplete | src/dns_tree.rs:56-88 | the depth-first search looks up exactly the reachable hashes, each once |
| DnsWalk.CompleteExactlyWithinLimits | src/dns_tree.rs:56-59 | the walk equals the search, and misses nothing reachable, if and only if each lookup of the search starts below both limits |
| DnsWalk.CompleteExactly | src/dns_tree.rs:48-91 | on every resolver, infinite trees included, nothing reachable is missed if and only if a finite zone holds the tree and its search fits |
| DnsWalk.ProgramIsComplete | src/dns_tree.rs:53-59 | the same for the limits 20 and 50, on the search order of the zone |
| DnsWalk.FlatAddressesCrowdOut | src/dns_tree.rs:56-59 | flat addresses up to the cutoff keep the root from being looked up, and leave an empty stack |
| DnsWalk.EmptyStackIsNotComplete | src/dns_tree.rs:56-59 | the concrete zone whose announced root the program never looks up, ending with an empty stack |
| HostNames.TldIsLastLabel | src/proxy.rs:54-81 | the handler's TLD is a dot and the last label of a lower-case, port-free host |
| HostNames.KeyIsReachable | src/proxy.rs:70-81 | a TLD can be looked up if and only if its name is lower-case header text without dots and colons |
| HostNames.RegistryKeyIsReachable | src/registry.rs:109-111 | which loaded keys can ever be returned to the handler, exactly |
| HostNames.CapitalTldIsLoadedInVain | src/registry.rs:44-66 | a concrete file whose key is loaded and can never be returned |
| HostNames.ExtractionIsCanonical | src/proxy.rs:367-382 | the host is the stripped prefix and a maximal number of TLD copies; no result exactly for an empty or dot-led prefix; the result divides the prefix at its last dot |
| HostNames.ReExtraction | src/proxy.rs:367-382 | a base domain extracts to itself with subdomain "@", unless its name is empty |
| HostNames.ExtractionInvertsJoining | src/proxy.rs:409-418 | extraction inverts joining if and only if the subdomain is proper and the name differs from the TLD's label, up to three "@" labels |
| HostNames.HeaderNamesItsDomain | src/proxy.rs:70-101 | the same from the raw header, whatever its case and port |
| HostNames.HeaderNamesApex | src/proxy.rs:70-101 | a host of two labels is its own base domain, with subdomain "@" |
| HostNames.NoHost | src/proxy.rs:54-81 | the header names no host if and only if it is missing, has a character that is no printable ASCII, or its host has no dot |
| Text.LowerCharIsAscii | src/proxy.rs:70 | lower-casing moves the letters 65 to 90 up by 32 and nothing else |
| HostNames.DoubledTldIsMisread | src/proxy.rs:367-382 | the concrete host for which the tested law fails |
| Registry.TldRegistry.LoadFromDir | src/registry.rs:23-106 | a missing directory changes nothing; an existing one replaces the contents by the load, even by nothing |
| Registry.TldRegistry.LoadEntry | src/registry.rs:43-66 | one file is added if it is admitted and its key is free |
| Registry.LoadedWhenClaimed | src/registry.rs:48-66 | a key is present if and only if some admitted file normalises to it |
| Registry.LoadedExactly | src/registry.rs:36-66 | a key is loaded if and only if a file named something ".json" with a configuration has that name behind its dots, the whitelist is empty or has the name, and the blacklist has not |
| Registry.LoadedFrom | src/registry.rs:59-66 | the first such file provides the configuration |
| Registry.ExcludedIsNeverLoaded | src/registry.rs:48-57 | a name on the blacklist, or missing from a non-empty whitelist, is never loaded |
| Registry.FirstClaimWins | src/registry.rs:59-66 | the first admitted file with a key provides its configuration |
| Registry.KeysAreClean | src/registry.rs:44-45 | every key is one dot and a name that does not begin with a dot |
| Registry.OrderMattersOnlyForConflicts | src/registry.rs:36-66 | the load is the same in every directory order if and only if admitted files with equal keys agree |
| Registry.DirectoryOrderDecides | src/registry.rs:36-66 | two concrete files for one TLD of which the first listed wins |
| Proxy.CollectTargets | src/proxy.rs:211-219 | the loop collects the targets of a zone entry |
| Proxy.TargetsKeepOrder | src/proxy.rs:211-219 | the targets are all IPFS and PeerId records of the entry, in their order |
| Proxy.Failover | src/proxy.rs:239-359 | exactly the targets that can be contacted (a peer whose name parses and whose request got onto the channel) and before which none answers are contacted, in order; the first answer is the result, and ProxyTargetFailed if there is none |
| Proxy.FailoverIsDetermined | src/proxy.rs:239-359 | what the targets would answer fixes both the result and who is contacted |
| Proxy.HandleProxyRequest | src/proxy.rs:50-360 | a routed request is served by failover over its zone entry's targets; each error occurs exactly for its own cause, and nobody is contacted for any other request |
| Proxy.PublishesExactly | src/proxy.rs:157-219 | targets are published if and only if the found record opens for the network to a zone whose entry for the subdomain, or for "www" when the apex has none, has exactly these IPFS and PeerId records in order |
| Proxy.WwwStandsInForApex | src/proxy.rs:191-208 | a zone with nothing but "www" routes the apex and "www" to it, and no other subdomain |
| Proxy.ServedExactly | src/proxy.rs:239-359 | the result is the well-formed response that the first target to give one gives, through its gateway or a peer reached over the channel, and ProxyTargetFailed otherwise |
| Proxy.ContactedExactly | src/proxy.rs:239-359 | who is contacted, in terms of what gateways and peers reply |
| Proxy.HeaderIsAddressed | src/proxy.rs:70-101 | a host `sub.name.tld` asks for `name.tld` and `sub` in the network registered for the TLD |
| Proxy.ApexIsAddressed | src/proxy.rs:70-101 | a host `name.tld` asks for itself and "@" |
| Updater.AutoUpdater.FetchAndUpdate | src/updater.rs:84-164 | one sync: which errors skip an item and which end the sync, what is written and counted |
| Updater.AutoUpdater.PerformRound | src/updater.rs:38-63 | one round: reload only after success, and the delays |
| Updater.AutoUpdater.Run | src/updater.rs:28-63 | any finite part of the loop |
| Updater.FailsWithAnItem | src/updater.rs:114-154 | a sync fails if and only if some item's download is refused or cut off or its write fails |
| Updater.SyncFailsExactly | src/updater.rs:77-154 | a sync fails if and only if there is no listing, or a network file's download or signature is refused or cut off, or the write of a signed body fails |
| Updater.SyncLeavesExactly | src/updater.rs:98-155 | after a sync a file holds what the last item to touch it left, the whole or after a torn write the first bytes of a body whose downloaded signature verifies, and otherwise its old contents |
| Updater.CountIsWrites | src/updater.rs:150-158 | the success count is the number of files written |
| Updater.WrittenFileHolds | src/updater.rs:143-150 | a written file holds the body that verified, unless a later item leads to the same file |
| Updater.SyncProvenance | src/updater.rs:143-155 | a sync leaves in each file its old bytes, bytes it downloaded and verified for an item that leads to it, or the part of such that a torn write kept |
| Updater.SyncIsSafeExactly | src/updater.rs:143-155 | after one sync every file holds old or verified bytes if and only if that is true of what each torn write left |
| Updater.RunProvenance | src/updater.rs:143-155 | after any run each file holds its first bytes, bytes some round downloaded and verified for it, or the part of such that a torn write kept |
| Updater.RunIsSafeExactly | src/updater.rs:143-155 | the directory holds only initial or verified bytes after every round if and only if each torn write leaves such bytes |
| Updater.OnlyVerifiedFilesAppear | src/updater.rs:143-150 | with atomic writes only bytes verified for an item that leads to the file replace or join the initial files |
| Updater.ChangedFilesAreSigned | src/updater.rs:106-150 | over any run with atomic writes, a changed file holds a body downloaded for a listed ".json" file together with a signature that decodes and verifies under the configured key |
| Updater.SignedItemIsWritten | src/updater.rs:143-150 | such a signed item is written, unless something ends the sync before it, and stands until overwritten |
| Updater.ForgedBodyIsNeverWritten | src/updater.rs:143-146 | a body that no signature verifies is never written |
| Updater.TornWriteIsUnsafe | src/updater.rs:150-154 | otherwise a torn write of a signed file leaves, on any disk, a part for which no signature exists, neither initial nor verified |
| Updater.RegistryIsLastGoodLoad | src/updater.rs:41-60 | the registry in memory is a load of the directory after the last successful sync whose reload found one, or the initial one |
| Updater.ReloadSeesFiles | src/updater.rs:49-51 | a reload loads a key if and only if a listed file, as it stands on the disk, parses to a configuration that may be loaded under it |
| Updater.BackoffClosedForm | src/updater.rs:36-62 | the sleep after n failures in a row is an hour doubled n times, at most a day; a success sleeps a day; doubling never exceeds two days |
| Updater.BackoffInSeconds | src/updater.rs:36-62 | the sleeps in seconds: 86400 after a success; 3600, 7200, 14400, 28800, 57600 and then 86400 after failures |

## Left out

- LookupPeer callers: the handler never sends this command; the system model lets any caller send it.
- Bootstrap in `KineticAtlasNode::new` (adding addresses, at most eight dials) and the swarm builder: start-up over an unseen library, easy members only.
- Time limits inside libp2p (query and request timeouts): they arrive as arbitrary events.
- The broadcast that announces a shutdown: a node may be stopped by it at any moment, which is the one way a running node in use can end.
- Proxy.HandleProxyRequest: whether a swarm can be had, the decoding of a zone and the gateway are arbitrary functions, and replies are taken as given; that they are what nodes of the request's TLD received is proved in `EndToEnd`, for a caller whose commands are the handler's. Gateway URLs, header copying and body streaming are not modelled.
- Invalid UTF-8 character strings in TXT records and invalid directory entries: skipped by the code, absent from the modelled lists.
- Registry files are read and parsed by an arbitrary function; the JSON format, the unused configuration fields and the kinetic-pac registration files are not modelled.
- Updater: starting only with a URL and a key, and the HTTP client, are not modelled.
- The error type's codes and severities, configuration file creation, logging, and the registration and monitoring scripts: tables and plumbing without hard properties.
- Unicode lower-casing: header text is ASCII, so ASCII lower-casing is exact there.
