# A Dafny model of Lantunnel's control plane

Lantunnel joins machines on different networks into one private mesh. This project models the
parts of it that decide who knows what, who is linked to whom and who may reach what, and proves
what those parts promise, for every input and every run.

| file | what it models |
|---|---|
| `Basics.dfy`, `Text.dfy`, `Decimal.dfy`, `Unicode.dfy` | sorting, ordered identifiers, trimming, splitting, decimal text, UTF-8 |
| `Ipv4.dfy` | IPv4 addresses, masks and blocks |
| `RuntimeRecord.dfy` | LAN Export prefixes, canonical runtime records, their binary form, and the record a Peer publishes |
| `Directory.dfy`, `DirectoryHistory.dfy` | the directory of learned records, its first-seen order, longest-prefix lookup |
| `Gossip.dfy`, `GossipHistory.dfy` | the pairwise gossip controller, and how often a link hears a Digest |
| `Mesh.dfy`, `Convergence.dfy`, `Echo.dfy`, `Drain.dfy`, `Restart.dfy` | any number of controllers joined by FIFO wires: convergence, termination, what deliveries bring about, restarts, repair |
| `Replica.dfy`, `LinkPlan.dfy` | Replica identifiers, Peer descriptors and the lane plan both ends compute |
| `LinkManager.dfy`, `LinkHistory.dfy` | link membership: present, suspected missing, retired |
| `OwnerTable.dfy`, `LanAliases.dfy`, `RouteMatcher.dfy` | exact address ownership, bulk alias replacement, destination matching, derived Overlay addresses |
| `AccessPolicy.dfy`, `PolicyLaws.dfy` | the access policy, its compiled form and its laws |
| `Scopes.dfy`, `GatewayControl.dfy`, `ControlHistory.dfy` | the Gateway's Scope store and its control session with the Platform |
| `IosRoutes.dfy` | the two CIDR parsers of the iOS client |

Objects that the program updates in place are classes. Each of their methods is proved to take the
object's state where a function on values says, and the results about whole runs are lemmas about
those functions.

## How the model reads the program

- A mask of `bits` leading ones is modelled by the shift it stands for: `a & mask` is `(a >> k) << k`
  and `a | !mask` is `(((a >> k) + 1) << k) - 1`, with `k = 32 - bits` (128 for IPv6).
- `Instant`s are natural numbers of nanoseconds and never overflow; `saturating_duration_since` is
  modelled by its comparison with the grace period.
- SHA-256 is a function parameter. It is taken to be injective on record encodings only in
  `Echo.DigestRepairs` and `Drain.PollRepairs`, and to give 32 bytes only where an Overlay address
  is derived.
- Strings are ordered as sequences of characters, which for valid UTF-8 is the order of the bytes.
  Ordered maps are visited in that order; unordered maps in any order.
- A mesh step is one call into one controller; what it returns is put on the wires at once, and each
  wire is FIFO. Payloads that arrive on a link that is not ready are rejected and lost, as in the
  code. `link_closed` tells nobody and its caller keeps the link's cipher
  (`crates/tp-client/src/engine.rs:2973`), so what either end has sent may still arrive, or be lost with
  the lane that carried it: of each wire, any payloads at all may be lost on a close and the rest outlive it.
- The standard library's IP address parsers are parameters of the policy compiler. Only three facts
  about them are used: how they read `0.0.0.0` and `::`.
- The iOS validator trims a character set that Foundation defines. It is a parameter, and all that is
  asked of it is that it holds no digit and no sign.
- The control session's frame parser, signature, UUID, digest and key checks are parameters. Every
  rejection of a frame is one error. `flushed` and `ok` in an event say whether flushing the usage log
  and the acknowledgement or send succeed, and the connection may be lost at any time.
- The reciprocal reply does not cover every restart. `Restart.RestartStalls`, `Restart.LateRecordStalls`
  and `Restart.GapStalls` are runs that fall quiet with both links up and a record missing, and
  `Restart.CutGoesStale` is one that leaves an old record behind. `Convergence.Converges` says exactly
  which runs converge, `Drain.DrainsExactly` tells it from any state before the deliveries,
  `Restart.ReadyExactly` at the moment a link turns ready, and `Restart.RestartExactly` before a close
  that is followed by a new ready with no delivery in between.
- Trailing dots are removed from requested hosts and not from the names in rules, so a rule for
  `evil.com.` compiles and matches nothing: `AccessPolicy.DottedNameNeverMatches`.
  `AccessPolicy.HostRuleLives` says exactly which host rules can match.
- LAN aliases are kept under a Peer's family and removed under the exact identifier.
  `LanAliases.RemovalUndoesExactly` says for which identifiers removal undoes a replacement, and
  `LanAliases.ReplicaAliasesRemain` shows one for which it does not.
- A Peer that reappears stays in the queue of retired Peers until it is taken, so what is taken may be
  Present again. `LinkManager.TakenAreRetired` says exactly when a snapshot leaves only Retired links in it; a
  caller that takes the queue after each snapshot is in that case.
- The settings factory takes a sign in front of an octet (`+10.0.0.0/8`), which the validator
  refuses: `IosRoutes.SignedOctetDiffers`. `IosRoutes.ParsersAgreeExactly` says exactly on which
  text they agree.
- At its own Overlay address a policy is first-match, so rule order matters there:
  `PolicyLaws.OrderMattersExactly` says exactly when.

## Model

| member | source | states |
|---|---|---|
| Ipv4.BlockIsInterval | crates/tp-client/src/peer_runtime.rs:55-57 | two addresses have the same masked network exactly when one lies between the first and the last address of the other's block |
| Ipv4.BlockEnds | crates/tp-client/src/peer_runtime.rs:55-57 | the masked address is a multiple of 2^(32 - bits), and the block ends that many addresses later |
| Ipv4.Rfc1918ByMasks | crates/tp-client/src/peer_runtime.rs:340-346 | the mask tests accept exactly the addresses of the three blocks of section 3 of RFC 1918 |
| Ipv4.OctetsBigEndian | crates/tp-client/src/peer_runtime.rs:91 | the four octets of an address are its base-256 digits, most significant first |
| RuntimeRecord.AdmissibleExactly | crates/tp-client/src/peer_runtime.rs:23-53 | a prefix passes the checks on its two ends exactly when it is canonical, at least /8, and lies whole in one RFC 1918 block; the other checks never decide |
| RuntimeRecord.ExportStaysPrivate | crates/tp-client/src/peer_runtime.rs:23-57 | every address contained in an accepted prefix is private and inside the block of its ends |
| RuntimeRecord.NewRecordExactly | crates/tp-client/src/peer_runtime.rs:72-85 | construction succeeds exactly on at most 64 exports with distinct prefixes, keeps exactly those, and otherwise gives the named error |
| RuntimeRecord.NewRecordIgnoresOrder | crates/tp-client/src/peer_runtime.rs:72-85 | every permutation of the input gives the same result, errors included |
| RuntimeRecord.Encode | crates/tp-client/src/peer_runtime.rs:87-96 | the loop that writes the bytes gives the encoding whose round trip is proved below |
| RuntimeRecord.Decode | crates/tp-client/src/peer_runtime.rs:98-121 | the loop that reads the bytes gives the decoding, with the first error met |
| RuntimeRecord.EncodingLayout | crates/tp-client/src/peer_runtime.rs:87-96 | the bytes are a count and, six for each export, the big-endian network, the length and the ready flag |
| RuntimeRecord.RecordRoundTrip | crates/tp-client/src/peer_runtime.rs:87-121 | decoding an encoded record gives it back |
| RuntimeRecord.EncodingInjective | crates/tp-client/src/peer_runtime.rs:87-96 | different records have different encodings |
| RuntimeRecord.DecodingCanonicalises | crates/tp-client/src/peer_runtime.rs:98-121 | whatever bytes decode, re-encoding the result decodes to the same record |
| RuntimeRecord.CanonicalBytes | crates/tp-client/src/peer_runtime.rs:87-121 | bytes that decode are their record's own encoding exactly when they list the exports in increasing order |
| RuntimeRecord.DecodesExactly | crates/tp-client/src/peer_runtime.rs:98-121 | bytes decode to a record exactly when they are a count and the bytes of its exports in any order, with nothing after them |
| RuntimeRecord.Resolve | crates/tp-client/src/peer_runtime.rs:147-178 | the published record holds the first 64 distinct candidates, typed ones first, each ready exactly when it is in the connected snapshot, and the final construction cannot fail |
| RuntimeRecord.PublishedExactly | crates/tp-client/src/peer_runtime.rs:147-178 | a listed prefix is typed, or automatic is on and the snapshot lists it; below 64 exports all of these are listed; one is ready exactly when a snapshot is present and lists it |
| RuntimeRecord.TypedPrefixPublished | crates/tp-client/src/peer_runtime.rs:147-163 | a typed prefix is listed exactly when fewer than 64 others are typed before it, whatever the snapshot |
| RuntimeRecord.ContainsExactly | crates/tp-client/src/peer_runtime.rs:55-57 | an export contains exactly the addresses from its network to its last address |
| RuntimeRecord.PublishedRecordUnique | crates/tp-client/src/peer_runtime.rs:147-178 | the config and the snapshot determine the record |
| RuntimeRecord.ConfiguredNeverDisplaced | crates/tp-client/src/peer_runtime.rs:161-176 | no automatic prefix displaces one of the first 64 distinct configured ones |
| RuntimeRecord.LanOfExactly | crates/tp-client/src/native_route_guard.rs:270-284 | an interface address yields a prefix exactly when its length is 8 to 32 and its whole network lies in one RFC 1918 block, and then one of that length that contains the address |
| RuntimeRecord.ConnectedLansExactly | crates/tp-client/src/native_route_guard.rs:270-290 | the normalised list is the strictly sorted set of those prefixes |
| RuntimeRecord.ConnectedLansIgnoreOrder | crates/tp-client/src/native_route_guard.rs:270-290 | it depends only on which interface networks occur |
| Directory.ReplacedConsistent | crates/tp-client/src/peer_runtime.rs:194-218 | replacing a record keeps the order index in agreement with the record table |
| Directory.ReadyPrefixes | crates/tp-client/src/peer_runtime.rs:317-324 | exactly the prefixes that the record lists with the ready flag set |
| Directory.ReplacedMembers | crates/tp-client/src/peer_runtime.rs:194-218 | after a replacement the origin stands in the queue of exactly the prefixes its record marks ready, and nobody else moves in or out |
| Directory.RemovedConsistent | crates/tp-client/src/peer_runtime.rs:220-228 | so does removing an origin |
| Directory.PeerGossipDirectory.ReplaceOrigin | crates/tp-client/src/peer_runtime.rs:194-218 | the two loops leave the queues the origin is no longer ready for and join the tail of the new ones, in any visiting order, after which the origin is queued for exactly the prefixes its record lists as ready; an invalid origin changes nothing |
| Directory.PeerGossipDirectory.RemoveOrigin | crates/tp-client/src/peer_runtime.rs:220-228 | the record and every place in a queue are gone, and the others keep theirs |
| Directory.PeerGossipDirectory.LongestPrefixExporter | crates/tp-client/src/peer_runtime.rs:279-288 | a scan in any order gives the naive longest match over the sorted active snapshot (section 5.1 of RFC 4632) |
| Directory.ActiveSnapshotExactly | crates/tp-client/src/peer_runtime.rs:262-274 | the snapshot lists the front of every queue once, strictly sorted |
| Directory.LongestUnique | crates/tp-client/src/peer_runtime.rs:279-288 | at most one prefix of each length contains a destination, so two longest matches are the same |
| Directory.NaiveFindsLongest | crates/tp-client/src/peer_runtime.rs:262-288 | a first-come scan of the sorted snapshot finds a longest match, and finds none only if there is none |
| DirectoryHistory.AlwaysConsistent | crates/tp-client/src/peer_runtime.rs:193-228 | after any run no queue is empty or repeats an origin, and it holds exactly the origins whose record marks the prefix ready |
| DirectoryHistory.QueuedByLastWord | crates/tp-client/src/peer_runtime.rs:193-228 | after any run an origin is queued for a prefix exactly when its last accepted event is a replacement whose record lists that prefix as ready |
| DirectoryHistory.OrderIsHistory | crates/tp-client/src/peer_runtime.rs:193-228 | after any run each queue lists the ready origins by their most recent turn from not ready to ready |
| DirectoryHistory.HistoryDeterminesQueue | crates/tp-client/src/peer_runtime.rs:193-228 | no other queue fits the history |
| DirectoryHistory.ActiveNeverDisplaced | crates/tp-client/src/peer_runtime.rs:253-258 | while the active exporter stays ready, no run of other changes displaces it |
| Gossip.DigestInterval | crates/tp-client/src/peer_gossip.rs:194-204 | the interval lies between 25 and 35 seconds for every identifier |
| Gossip.DigestIntervalExactly | crates/tp-client/src/peer_gossip.rs:194-204 | the interval is 25 s and as many seconds more as the polynomial of the identifier's bytes leaves modulo 2^64 and then 11: wrapping at each step is wrapping once |
| Gossip.ValidPeerIdExactly | crates/tp-client/src/peer_gossip.rs:183-192 | an identifier is valid exactly when it is not empty, neither begins nor ends in white space and has at most 256 bytes |
| Gossip.PeerGossipController.LinkReady | crates/tp-client/src/peer_gossip.rs:56-70 | a valid identifier starts a new generation that owes a reply and returns the full record; an invalid one changes nothing |
| Gossip.PeerGossipController.SetLocalRecord | crates/tp-client/src/peer_gossip.rs:73-89 | a changed record is pushed once to every ready link in key order; an unchanged one to nobody |
| Gossip.PeerGossipController.PollDueDigests | crates/tp-client/src/peer_gossip.rs:92-107 | exactly the due links get one Digest of the current record and a new deadline |
| Gossip.PeerGossipController.ReceivePayload | crates/tp-client/src/peer_gossip.rs:110-148 | every payload, link state and decoding error leads to the specified state and reply |
| Gossip.PeerGossipController.LinkClosed | crates/tp-client/src/peer_gossip.rs:156-161 | the link and everything learned on it are forgotten |
| GossipHistory.SetLocalExactly | crates/tp-client/src/peer_gossip.rs:73-89 | a changed record goes to exactly the ready links, an unchanged one to nobody |
| GossipHistory.PollExactly | crates/tp-client/src/peer_gossip.rs:92-107 | a poll sends exactly the hash of the local record to exactly the ready links whose deadline has come |
| GossipHistory.DigestsArePaced | crates/tp-client/src/peer_gossip.rs:56-107 | over every run, after a link turns ready or hears a Digest, a poll less than 25 s later sends none and the next poll at least 35 s later sends one, unless the link was closed |
| GossipHistory.OnlyReadyLinksHear | crates/tp-client/src/peer_gossip.rs:110-148 | an answer goes to the sender, and only on a ready link |
| Mesh.ElsewhereFlow | crates/tp-client/src/peer_gossip.rs:110-148 | a delivery on one link changes nothing about what any other pair of Peers knows, owes or has in flight |
| Mesh.ArriveFlow | crates/tp-client/src/peer_gossip.rs:110-148 | what a delivered payload does to one direction of a pair: only a decodable record is learned, and exactly the specified answer goes back on the same link |
| Convergence.FlowAlways | crates/tp-client/src/peer_gossip.rs:56-161 | in every run of every mesh, whatever a close loses, each direction of each pair keeps the gossip invariant |
| Convergence.StaleExactly | crates/tp-client/src/peer_gossip.rs:56-161 | once no record is in flight from a ready Peer, what the other holds for it is current exactly when the other's last close did not cut off the current record and let an older one through |
| Convergence.NeverStale | crates/tp-client/src/peer_gossip.rs:56-161 | in runs whose closes never lose the newest record in flight and keep an older one, nothing is ever cut off, so with StaleExactly what is held once no record is in flight is current |
| Convergence.Converges | crates/tp-client/src/peer_gossip.rs:56-161 | of two quiet Peers with both links up, one holds some record of the other exactly when it has been introduced, and the current one exactly when it was moreover not cut off by its own last close |
| Convergence.ConvergesWithoutClose | crates/tp-client/src/peer_gossip.rs:56-148 | in runs without a close, ready links and quiet wires suffice, in any order of turning ready, with early payloads lost and without any Digest |
| Convergence.QuietExactly | crates/tp-client/src/peer_gossip.rs:56-161 | with only the sender's link known to be up, a quiet direction has converged exactly when some record arrived since the receiver last closed and none was cut off |
| Echo.DeliveryLowersTotal | crates/tp-client/src/peer_gossip.rs:110-148 | every delivery strictly lowers a measure over queued payloads and pending replies |
| Echo.DeliveryTerminates | crates/tp-client/src/peer_gossip.rs:127-134 | from any state of any mesh, deliveries alone end within a number that the state gives |
| Echo.OneReciprocalAGeneration | crates/tp-client/src/peer_gossip.rs:123-134 | over any run, reciprocal records sent and still owed on a link never exceed the generations it has had |
| Echo.DigestRepairs | crates/tp-client/src/peer_gossip.rs:92-148 | from any stale state one Digest, Need and record exchange leaves exactly the origin's record; no other record, link, deadline or exporter order changes |
| Drain.DrainsExactly | crates/tp-client/src/peer_gossip.rs:110-148 | from any state of any mesh with both links up, once deliveries have drained the pair one end holds the other's current record exactly when beforehand the other was asked, would be asked by an arriving Digest, owed a reply that would be called for, or the wire's last readable record was current |
| Drain.PollRepairs | crates/tp-client/src/peer_gossip.rs:92-148 | from any state of any mesh with both links up, one due Digest and deliveries until the pair is drained leave the current record |
| Restart.ReadyExactly | crates/tp-client/src/peer_gossip.rs:56-70 | from any state, when one end turns ready it will hold the other's current record exactly when the other still owes its reply, has been asked, or has on the wire what will ask or bring it |
| Restart.RunReadyExactly | crates/tp-client/src/peer_gossip.rs:56-161 | over every run without a cut and whatever happened since the close: exactly when the reply is owed, a record or Digest is on its way, or a Need is |
| Restart.RestartExactly | crates/tp-client/src/peer_gossip.rs:123-161 | for a close followed at once by a new ready, from any state and judged before the close: exactly when the other owes its reply, or a Need or what will ask or bring the record survives the close |
| Restart.CleanRestartExactly | crates/tp-client/src/peer_gossip.rs:123-161 | when nothing survives such a close, exactly when the other owed its reply |
| Restart.RestartStalls | crates/tp-client/src/peer_gossip.rs:123-134 | a run from the start in which one end restarts after the other has replied, and everything falls quiet with a record missing |
| Restart.LateRecordStalls | crates/tp-client/src/peer_gossip.rs:123-134 | a run in which both ends turn ready after the other's last close, and a record that outlived the close uses up the reply |
| Restart.GapStalls | crates/tp-client/src/peer_gossip.rs:123-134 | a run in which the reply is owed before the close, and a record delivered between the close and the new ready uses it up |
| Restart.CutGoesStale | crates/tp-client/src/peer_gossip.rs:156-161 | a run in which a close loses the newer of two records on the wire and the older one is learned |
| Replica.FamilyIdStable | crates/tp-client/src/p2p/replica.rs:72-76 | the family identifier of a family identifier is itself |
| Replica.SeedIsOfTheFamily | crates/tp-client/src/p2p/replica.rs:26-30 | all Replicas of a family in a Tunnel share one seed, which gives back the family identifier |
| Replica.ParseExactly | crates/tp-client/src/p2p/replica.rs:8-24 | an identifier parses into given parts exactly when it spells them: text, eight letters or digits, and a number below 2^64 without leading zeros |
| Replica.FamilyIdExactly | crates/tp-client/src/p2p/replica.rs:72-76 | every Replica stands for the first of its family, and text of another form for itself |
| Replica.SeedExactly | crates/tp-client/src/p2p/replica.rs:26-30 | a seed exists exactly for the Replicas of this Tunnel, and is their random part |
| LinkPlan.FromReplicaIds | crates/tp-client/src/peer_link_manager.rs:30-56 | a descriptor exists exactly for a non-empty list of one family with distinct indexes and lists each Replica once; the first misfit decides the error, a foreign family before a bad index, duplicates last |
| LinkPlan.EndsMirror | crates/tp-client/src/peer_link_manager.rs:481-528 | two Peers planning on their own get the same key, exactly one initiator, opposite roles, and each other's Replicas |
| LinkPlan.LesserInitiates | crates/tp-client/src/peer_link_manager.rs:149-165 | the initiator is the Peer whose identifier is a prefix of the other or smaller where they first differ |
| LinkPlan.LaneReplica | crates/tp-client/src/peer_link_manager.rs:530-535 | in any descriptor the Replica with the lane's own index serves it, and a lane that no Replica has goes round by position |
| LinkPlan.StableKeyExactly | crates/tp-client/src/peer_link_manager.rs:281-302 | a relation key exists exactly for two different identities, neither blank, holds both in order, and each failure has its own error |
| LinkPlan.RelationKeysAgree | crates/tp-client/src/peer_link_manager.rs:254-302 | the relation key of a lane is the one derived from the two identities in either order |
| LinkPlan.RelationKeysDistinct | crates/tp-client/src/peer_link_manager.rs:280-302 | equal relation keys mean the same pair and the same lane |
| LinkPlan.LoadExactly | crates/tp-client/src/peer_link_manager.rs:530-535 | with indexes 0 to k-1 the lanes are dealt out in turn |
| LinkPlan.LanesBalanced | crates/tp-client/src/peer_link_manager.rs:493-535 | over any number of lanes, no Replica carries two more than another |
| LinkManager.PeerLinkManager.New | crates/tp-client/src/peer_link_manager.rs:345-359 | a manager exists exactly for a positive lane count, and starts empty |
| LinkManager.PeerLinkManager.ApplySnapshotAt | crates/tp-client/src/peer_link_manager.rs:367-435 | both loops together take the state where the specification says; the invariant holds and every retired link is queued |
| LinkManager.PeerLinkManager.TakeRetiredPeers | crates/tp-client/src/peer_link_manager.rs:437-439 | the queue is handed over and nothing else changes |
| LinkManager.PeerLinkManager.ConfirmRetiredPeer | crates/tp-client/src/peer_link_manager.rs:444-456 | a link that is Retired goes, with its absence time and its place in the queue; any other call changes nothing |
| LinkManager.PeerLinkManager.RecordRetryFailure | crates/tp-client/src/peer_link_manager.rs:466-472 | the counter of a known link rises, up to the 32-bit limit |
| LinkManager.SnapshotOk | crates/tp-client/src/peer_link_manager.rs:367-435 | absence times exist exactly for links not Present, each link has the configured lanes in place, the queue repeats nobody, and each Retired link is in it |
| LinkManager.OfferedExactly | crates/tp-client/src/peer_link_manager.rs:414-435 | after a snapshot the queue holds exactly whoever was in it and every link that is Retired |
| LinkManager.TakenAreRetired | crates/tp-client/src/peer_link_manager.rs:414-439 | the queue then holds exactly the Retired links just when everyone already in it is still absent and expired, so always when it was empty |
| LinkManager.ExpiredExactly | crates/tp-client/src/peer_link_manager.rs:414-424 | an absence runs out exactly after 120 s without a healthy direct path and without a usable relay |
| LinkManager.LastDescriptorWins | crates/tp-client/src/peer_link_manager.rs:383-413 | of several descriptors listed for one Peer the last one sets its lanes |
| LinkManager.AnnounceAllPresent | crates/tp-client/src/peer_link_manager.rs:383-413 | after the first loop every listed Peer is Present without an absence time, and nobody else has changed |
| LinkManager.CommandsExactly | crates/tp-client/src/peer_link_manager.rs:383-413 | for distinct Peers the commands are exactly the new or changed lanes, each once |
| LinkManager.SecondSnapshotQuiet | crates/tp-client/src/peer_link_manager.rs:383-413 | applying a snapshot again issues no command exactly when the descriptors it lists for one Peer plan the same lanes |
| LinkHistory.AlwaysOk | crates/tp-client/src/peer_link_manager.rs:361-456 | the manager's invariant holds after every run, and after a snapshot every Retired link is queued |
| LinkHistory.MembershipIsHistory | crates/tp-client/src/peer_link_manager.rs:367-456 | after every run a link is Retired exactly when all snapshots since its first absence missed it, that absence is at least 120 s older than the last snapshot, and at that one there was neither a healthy direct path nor a usable relay; Present exactly when the last snapshot lists it |
| LinkHistory.LanesAreHistory | crates/tp-client/src/peer_link_manager.rs:383-413 | after every run a link runs the plan of the last descriptor in the last snapshot that listed the Peer |
| LinkHistory.RetriesAreCounted | crates/tp-client/src/peer_link_manager.rs:367-472 | after every run the counter is the number of failures reported since the Peer was last linked anew, at most 2^32 - 1; snapshots do not reset it |
| LinkHistory.OnlyConfirmRemoves | crates/tp-client/src/peer_link_manager.rs:444-456 | a link disappears exactly when its retirement is confirmed while it is Retired |
| LinkHistory.ReappearedIsKept | crates/tp-client/src/peer_link_manager.rs:444-456 | a Peer listed by the most recent snapshot is refused removal |
| LinkHistory.RejectedIsOfferedAgain | crates/tp-client/src/peer_link_manager.rs:414-435 | a retirement that was taken and not confirmed is queued again by the next snapshot that still finds the Peer absent |
| OwnerTable.RemoveStep | crates/tp-client/src/route_matcher.rs:313-333 | removing one owner keeps the two tables inverse, with no empty owner set |
| OwnerTable.AddStep | crates/tp-client/src/route_matcher.rs:124-129 | so does adding one |
| OwnerTable.InverseUnique | crates/tp-client/src/route_matcher.rs:313-333 | the forward table determines the owner table |
| OwnerTable.ProjectedIsInstalled | crates/tp-client/src/route_matcher.rs:92-108 | the destinations projected before a change are exactly the keys installed by it |
| LanAliases.RejectsExactly | crates/tp-client/src/route_matcher.rs:80-89 | a list is refused exactly for more than 255 aliases or a public address, and the least public address is named |
| LanAliases.ReplaceKeepsLimits | crates/tp-client/src/route_matcher.rs:72-131 | an accepted replacement keeps at most 255 private aliases a Peer and 4096 destinations |
| LanAliases.ReplaceExactly | crates/tp-client/src/route_matcher.rs:72-131 | a replacement is accepted exactly for at most 255 private aliases that leave at most 4096 addresses; the family then holds exactly these and every other family what it held |
| LanAliases.SecondReplacementDecides | crates/tp-client/src/route_matcher.rs:72-131 | of two replacements for one family the second decides alone, also when it is refused |
| LanAliases.RemovalUndoesExactly | crates/tp-client/src/route_matcher.rs:183-196 | removing an identifier undoes its first alias replacement exactly when it names its own family |
| LanAliases.ReplicaAliasesRemain | crates/tp-client/src/route_matcher.rs:183-196 | removing a second Replica's identifier leaves the aliases it installed under its family |
| LanAliases.ReplaceAllExactly | crates/tp-client/src/route_matcher.rs:136-179 | a snapshot is installed exactly when its merged table is within the limits |
| LanAliases.FirstFamilyRefused | crates/tp-client/src/route_matcher.rs:136-179 | a snapshot refused for some family is refused with the error of the first such family in order |
| LanAliases.BulkRefinesEach | crates/tp-client/src/route_matcher.rs:72-179 | for distinct families, replacing all at once succeeds exactly when replacing one by one from empty tables does, in any order, with the same table |
| RouteMatcher.OverlayRouteMatcher.UpsertReplica | crates/tp-client/src/route_matcher.rs:35-50 | the family of a Replica of the Tunnel gets its derived address; any other identifier changes nothing |
| RouteMatcher.OverlayRouteMatcher.UpsertPeerOverlay | crates/tp-client/src/route_matcher.rs:52-66 | the Peer's address is replaced and the tables stay mutual inverses |
| RouteMatcher.OverlayRouteMatcher.ReplacePeerLanAliases | crates/tp-client/src/route_matcher.rs:72-131 | an accepted list replaces the family's aliases with both tables inverse and within the limits; a rejected one changes nothing |
| RouteMatcher.OverlayRouteMatcher.ReplaceLanAliasSnapshot | crates/tp-client/src/route_matcher.rs:136-179 | the same for a whole snapshot |
| RouteMatcher.OverlayRouteMatcher.RemovePeer | crates/tp-client/src/route_matcher.rs:183-196 | exactly this identifier's Overlay and aliases go, from all four tables |
| RouteMatcher.OverlayRouteMatcher.MatchDestination | crates/tp-client/src/route_matcher.rs:198-221 | one claimant of the address is matched, none is unmatched, several are ambiguous, and IPv6 is unmatched |
| RouteMatcher.OverlayRouteMatcher.MatchV2Destination | crates/tp-client/src/route_matcher.rs:261-280 | exact Overlay ownership decides where there is any, otherwise the longest matching export |
| RouteMatcher.RouteSnapshotExactly | crates/tp-client/src/route_matcher.rs:293-304 | the installed routes are, in address order, the addresses that exactly one Peer claims |
| RouteMatcher.DeriveOverlay | crates/tp-client/src/overlay.rs:15-25 | a derived address lies between 198.18.0.1 and 198.18.255.254 |
| RouteMatcher.DeriveOverlayExactly | crates/tp-client/src/overlay.rs:15-25 | the address is 198.18.0.1 plus the first two hash bytes, most significant first, modulo 65534 |
| RouteMatcher.DerivationInputInjective | crates/tp-client/src/overlay.rs:12-21 | Peers of different Tunnels or with different seeds never hash the same text, when no Tunnel holds a zero character |
| RouteMatcher.DerivationText | crates/tp-client/src/overlay.rs:12-21 | what is hashed is the UTF-8 of the domain, the Tunnel and the seed, apart by zero characters |
| RouteMatcher.EveryHostIsDerived | crates/tp-client/src/overlay.rs:22-24 | every address of that range is derived from some hash prefix |
| RouteMatcher.DerivedIsNotPrivate | crates/tp-client/src/overlay.rs:15-25 | no accepted export contains a derived address |
| RouteMatcher.OverlayHidesNoExport | crates/tp-client/src/route_matcher.rs:261-280 | with derived Overlays, an owned address has no exporter, so exact precedence hides no route |
| RouteMatcher.InstalledRoutesMatch | crates/tp-client/src/route_matcher.rs:198-221 | with derived Overlays, no alias makes an installed route ambiguous |
| AccessPolicy.CompileRuleExactly | crates/tp-client/src/access_policy.rs:256-312 | a rule compiles exactly when its port is not zero and its CIDR or host pattern is well formed |
| AccessPolicy.CompileRulesExactly | crates/tp-client/src/access_policy.rs:256-274 | a list compiles rule by rule, and the error names the first rule that does not |
| AccessPolicy.CompiledRuleMeans | crates/tp-client/src/access_policy.rs:326-419 | the masks and patterns of a compiled rule match exactly the requests the written rule covers: ranges by their ends, host suffixes label by label |
| AccessPolicy.BelowByText | crates/tp-client/src/access_policy.rs:363-371 | the suffix test on text accepts exactly the hosts whose last labels are those of the suffix |
| AccessPolicy.HostRuleLives | crates/tp-client/src/access_policy.rs:287-310 | a well-formed host rule covers some request exactly when its name does not end in a dot |
| AccessPolicy.DottedNameNeverMatches | crates/tp-client/src/access_policy.rs:363-371 | `evil.com.` is accepted as a rule and covers no request |
| AccessPolicy.CompileKeepsMeaning | crates/tp-client/src/access_policy.rs:170-234 | a policy compiles exactly when all rules are well formed, and then decides every request as the written policy says |
| PolicyLaws.CidrRuleExactly | crates/tp-client/src/access_policy.rs:374-419 | a range rule compiles exactly when its length, however spelled, fits the family of its address, and matches exactly the addresses from the first to the last of the range |
| PolicyLaws.MaskedBlock6 | crates/tp-client/src/access_policy.rs:413-419 | an IPv6 range starts at a multiple of 2^(128 - bits) and holds that many addresses, the given one among them |
| PolicyLaws.OnlyCidrsCompile | crates/tp-client/src/access_policy.rs:374-394 | no other text is an address range |
| PolicyLaws.DenyRange | crates/tp-client/src/access_policy.rs:170-234 | one deny rule on a range, compiled: it refuses the requests of its protocol and port inside the range and no other away from the own Overlay address |
| PolicyLaws.DenyOne | crates/tp-client/src/access_policy.rs:170-234 | a policy of one deny rule compiles exactly when the rule is well formed, and refuses what it covers and the own Overlay address |
| PolicyLaws.DenyAddress | crates/tp-client/src/access_policy.rs:326-353 | one deny rule on an address refuses exactly that address for its protocol and port |
| PolicyLaws.HostCoversExactly | crates/tp-client/src/access_policy.rs:287-371 | a name covers the host of that spelling and `*.name` also every host below, up to ASCII case, surrounding blanks and the dots the request ends in |
| PolicyLaws.RefusalReason | crates/tp-client/src/access_policy.rs:256-312 | the reason given for a rule that does not compile |
| PolicyLaws.MappedFinalExactly | crates/tp-client/src/access_policy.rs:240-253 | a mapped final target is allowed exactly when no written deny rule covers it |
| PolicyLaws.ClosedDeniesAll | crates/tp-client/src/access_policy.rs:91-105 | a closed policy that compiles denies every class, protocol and address of both families, and every mapped final target |
| PolicyLaws.ClosedIsClosed | crates/tp-client/src/access_policy.rs:73-88 | the policy written to close a Client is closed and compiles |
| PolicyLaws.DenyAllDenies | crates/tp-client/src/access_policy.rs:187-193 | the startup fallback denies every request |
| PolicyLaws.AddedDeny | crates/tp-client/src/access_policy.rs:201-207 | a compiled policy keeps compiling exactly when the added deny rule is well formed, and then refuses what it covers and decides all else as before |
| PolicyLaws.Decided | crates/tp-client/src/access_policy.rs:170-234 | what the program decides with the compiled policy is what the written policy means |
| PolicyLaws.AddedThisPeerAllow | crates/tp-client/src/access_policy.rs:195-234 | exposing a local port, anywhere in the list, keeps the policy compiling and changes no decision away from the own Overlay address |
| PolicyLaws.OrderIrrelevant | crates/tp-client/src/access_policy.rs:195-234 | away from the own Overlay address, compiled decisions do not depend on rule order or repetition |
| PolicyLaws.OwnOverlayExactly | crates/tp-client/src/access_policy.rs:201-231 | at the own Overlay address a request passes exactly when no deny rule covers it and the first covering allow rule is a mapping of this Peer |
| PolicyLaws.OtherTargetsExactly | crates/tp-client/src/access_policy.rs:195-234 | anywhere else it passes exactly when no deny rule covers it and, once the allow list names anything but this Peer, some allow rule does |
| PolicyLaws.OrderMattersExactly | crates/tp-client/src/access_policy.rs:209-231 | there some order of both lists changes the compiled decision exactly when no deny rule, a mapping of this Peer and another allow rule cover the request |
| PolicyLaws.OrderMattersForOwnAddress | crates/tp-client/src/access_policy.rs:209-231 | with this Peer and its own address both allowed, the two orders decide differently |
| Scopes.AlwaysOk | crates/tp-gateway/src/scope.rs:70-157 | after every run no Tunnel is in both partitions and each Scope's issuer is the one first seen |
| Scopes.IssuerNeverReplaced | crates/tp-gateway/src/scope.rs:84-113 | over every run, a Tunnel is never admitted under two issuers, whatever was removed or moved between |
| Scopes.CollectedExactly | crates/tp-gateway/src/scope.rs:70-82 | a list of Scopes is taken exactly when each verifies and no Tunnel repeats, and otherwise the first bad Scope decides the error |
| Scopes.StepExactly | crates/tp-gateway/src/scope.rs:70-157 | a list that verifies, repeats no Tunnel and conflicts with neither the other partition nor a pinned issuer is installed exactly, pins its Tunnels and leaves the other partition alone; any other changes nothing |
| Scopes.PartitionIsLastList | crates/tp-gateway/src/scope.rs:70-157 | after every run each partition holds exactly the list last accepted for it |
| Scopes.GetExactly | crates/tp-gateway/src/scope.rs:47-54 | a lookup finds exactly what one of the partitions holds |
| Scopes.ScopeStore.ReplaceManagedSnapshot | crates/tp-gateway/src/scope.rs:70-117 | a complete valid snapshot replaces the managed partition and reports the removed Tunnels in order; any other changes nothing and fails with the first bad Scope, or else with a refusal |
| Scopes.ScopeStore.ReloadStatic | crates/tp-gateway/src/scope.rs:122-157 | the same for the partition read from files |
| Scopes.ScopeStore.Refusal | crates/tp-gateway/src/scope.rs:84-99 | a candidate is refused exactly for a Tunnel of the other partition or a changed issuer, and the error names one |
| GatewayControl.ValidateScopeSnapshot | apps/lantunnel-gateway/src/gateway_control.rs:749-792 | a snapshot is valid exactly when strictly sorted, with canonical verified Scopes and a matching digest, and yields its Scopes and budgets in order |
| GatewayControl.GatewayControlSession.HandleFrame | apps/lantunnel-gateway/src/gateway_control.rs:328-388 | every frame in every phase leads to the specified session, store and action; a rejected frame changes nothing |
| GatewayControl.PrepareAppliedSnapshot | apps/lantunnel-gateway/src/gateway_control.rs:652-682 | all disconnects come first, then all budgets, each in order, then the usage flush, without which there is no state to show |
| GatewayControl.AlwaysOrderly | apps/lantunnel-gateway/src/gateway_control.rs:551-638 | over every run of connections: one authentication a connection and nothing before it, a digest present exactly when Active, and equal to the digest of the Scopes installed |
| GatewayControl.ShownIsSettled | apps/lantunnel-gateway/src/gateway_control.rs:650-682 | whenever a digest is shown, every disconnect and budget of its snapshot has been done and usage has been flushed since |
| GatewayControl.InstalledIsSnapshot | apps/lantunnel-gateway/src/gateway_control.rs:749-792 | the installed Scopes in Tunnel order are the snapshot's own list, so the checked digest is theirs |
| ControlHistory.SnapshotExactly | apps/lantunnel-gateway/src/gateway_control.rs:348-373 | a snapshot frame is accepted exactly in version 2, after authentication, with a lowercase SHA-256 digest that matches, sorted verified items and no conflict; its items are then the managed partition, and otherwise only the connection ends |
| ControlHistory.EffectsExactly | apps/lantunnel-gateway/src/gateway_control.rs:650-682 | an accepted snapshot disconnects exactly the Tunnels that leave the managed partition and applies exactly the budgets its items carry; the digest is shown exactly when flushing and sending succeed |
| ControlHistory.OtherFrameExactly | apps/lantunnel-gateway/src/gateway_control.rs:334-387 | a challenge is answered and an acknowledgement taken exactly in version 2 and in their phase, without touching the Scopes; any other frame ends the connection |
| ControlHistory.DoneBeforeShown | apps/lantunnel-gateway/src/gateway_control.rs:551-682 | over every run, everything an accepted snapshot calls for has been done before any digest is shown from then on |
| ControlHistory.LeftIsDisconnected | apps/lantunnel-gateway/src/gateway_control.rs:551-682 | over every run, when a digest is shown every Tunnel that left the managed partition has been disconnected since it left |
| ControlHistory.DisconnectedLeft | apps/lantunnel-gateway/src/gateway_control.rs:650-665 | over every run, every disconnect belongs to the event at which its Tunnel left |
| ControlHistory.ShownIsInstalled | apps/lantunnel-gateway/src/gateway_control.rs:360-394 | over every run, a digest is shown only by an event after which it is the digest of the managed Scopes |
| ControlHistory.TickShows | apps/lantunnel-gateway/src/gateway_control.rs:627-634 | in every run the periodic state of an active connection shows the digest of the Scopes installed, then flushes usage |
| IosRoutes.ParseAddress | apps/ios-proxy/TunnelProxyShared/RouteValidator.swift:79-93 | the loop gives the address of exactly four readable octets |
| IosRoutes.RangesAgree | apps/ios-proxy/TunnelProxyShared/RouteValidator.swift:102-124 | the ranges the validator parses from its five texts are the factory's constants |
| IosRoutes.RangeTextsRead | apps/ios-proxy/TunnelProxyShared/RouteValidator.swift:120-124 | each of the five range texts reads, so making the ranges cannot fail |
| IosRoutes.RouteStaysInRange | apps/ios-proxy/TunnelProxyShared/RouteValidator.swift:69-76 | every address of an accepted route lies in the one allowed range of its ends |
| IosRoutes.ValidatedIsNormal | apps/ios-proxy/TunnelProxyShared/RouteValidator.swift:53-77 | an accepted route is masked to its prefix and lies in one allowed range |
| IosRoutes.DescribeValidates | apps/ios-proxy/TunnelProxyShared/RouteValidator.swift:49-77 | a printed route parses back to the same network and prefix |
| IosRoutes.DescribeIncluded | apps/ios-proxy/TunnelProxyShared/PacketTunnelSettingsFactory.swift:77-97 | the factory accepts a printed route with the same network and mask |
| IosRoutes.PrintedRouteExactly | apps/ios-proxy/TunnelProxyShared/PacketTunnelSettingsFactory.swift:77-97 | for every printed address and length both parsers accept exactly lengths 1 to 32 whose whole range is allowed, mask the network and name the same kind of error otherwise |
| IosRoutes.MalformedRoute | apps/ios-proxy/TunnelProxyShared/RouteValidator.swift:53-66 | text that is blank, has no slash, or has no address before it gets its own error, and only such text does |
| IosRoutes.SignedReads | apps/ios-proxy/TunnelProxyShared/RouteValidator.swift:65 | every spelling of a whole number, with a sign and leading zeros, is read as that number |
| IosRoutes.OnlySignedReads | apps/ios-proxy/TunnelProxyShared/RouteValidator.swift:65 | nothing else is read as a number |
| IosRoutes.MaskOfExactly | apps/ios-proxy/TunnelProxyShared/PacketTunnelSettingsFactory.swift:115-117 | the mask of a prefix is 2^32 less 2^(32 - prefix) |
| IosRoutes.FormatReads | apps/ios-proxy/TunnelProxyShared/PacketTunnelSettingsFactory.swift:99-128 | a printed address reads back in both parsers |
| IosRoutes.ValidateFirstExactly | apps/ios-proxy/TunnelProxyShared/RouteValidator.swift:12-19 | validation gives one normalised route per entry, or the error of the first bad entry |
| IosRoutes.ValidateIdempotent | apps/ios-proxy/TunnelProxyShared/RouteValidator.swift:12-19 | validation is idempotent, and the factory installs the same route from each result |
| IosRoutes.ParsersAgreeExactly | apps/ios-proxy/TunnelProxyShared/PacketTunnelSettingsFactory.swift:77-113 | on any text, the validator accepts with nothing to trim exactly what the factory accepts without a sign in the address, and both describe the same route |
| IosRoutes.SignedOctetDiffers | apps/ios-proxy/TunnelProxyShared/PacketTunnelSettingsFactory.swift:106-111 | `+10.0.0.0/8` is accepted by the factory and refused by the validator |

## Left out

- Sockets, TLS, QUIC, WebSocket framing and reconnect timing: input and output.
- Certificates, keys, signatures and hash internals: library code.
- Relay usage accounting and its write-ahead log: only the order of its calls is modelled.
- `PeerDescriptor::from_stable_peer_and_replica_ids` and `from_stable_peer_id`: they differ from `from_replica_ids` only in the identity check; the plan is proved for every descriptor they can return.
- `apply_snapshot`: it is `apply_snapshot_at` with the clock read and no usable path.
- Reading Scope files from a directory: the files' Scopes are a parameter of `ReloadStatic`; a read failure makes no call.
- Loss of payloads other than on a close or before a link is ready. `Drain.DrainsExactly` and `Drain.PollRepairs` start from any state and so cover what follows any loss.
- The text of error messages, and the text form of Gateway frames with its size limits.
- `local_target.rs`, `client_ui.rs` and the native route exclusions: they would mostly add easy members.
- `access_policy.rs` serialisation, and the standard library's IP address parsers.
- Swift's grouping of combining characters: text is a sequence of Unicode scalars.
- The settings factory's other fields (tunnel address, MTU, DNS) and the user interfaces.
