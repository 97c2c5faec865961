# The lessor DHCPv4 lease engine in Dafny

`lessor` is a DHCPv4 server. Its core does no I/O and reads no clock: a request, the
configuration, the lease table and the time go in; a reply and a new table come out.
This project models that core, the administrative edits around it and the claim protocol
of its SQL backend, and proves what they guarantee over whole runs.

Each mutable object of the program is a class here, and each of its methods is proved
equal to a function on values. The theorems are about those functions.

| file | what it holds |
|---|---|
| `Bits`, `Addr`, `Scopes` | 32-bit mask arithmetic, client identities, ranges, a scope and its pools |
| `Validation`, `Config` | the rules a scope and a whole configuration must pass |
| `Leases`, `Tables`, `Store` | a lease; the two-way index as a value; the store that holds it |
| `Allocation`, `Server` | choosing and claiming an address; the packet handlers |
| `Effects` | how far one packet reaches |
| `Answers` | what each kind of packet does and is answered, field by field |
| `Admin`, `State` | packets and edits as steps, runs of steps; the server object |
| `Edits`, `Reports` | what each edit leaves behind; what each entry of a report means |
| `Restart` | whether what an edit writes back is accepted at the next start |
| `Exclusivity`, `Quarantine`, `Entitlement`, `PoolUse`, `Integrity`, `Agreement` | theorems about runs |
| `Sqlite`, `Text` | the shared table and its text keys |
| `Walkers`, `Discovery` | the hand-written option walkers, the probe, the host list |

A run is a sequence of events, each with its clock reading; `After(sys, es, n)` is the
state after the first `n`. Which addresses a probe found in use elsewhere is an arbitrary
set given with each packet.

Where the code does not do what its comments, or a reader, would expect, the model
follows the code and states exactly when:

- A quarantine ends as soon as the client it is recorded under obtains another address,
  because a client's previous record is dropped whatever its state.
  `NamedClientEndsQuarantineIff` gives the exact condition and `DeclinerFreesAddress`
  the consequence; `DeclineQuarantines` is what does hold.
- A NAK may leave a fresh Bound lease behind: `NakMayBind` says exactly when, told from
  the state the REQUEST arrives in, and `AskingElsewhereBinds` that it happens.
- A reserved address may be acknowledged without being recorded: `ReservedRequestIsAcked`
  says exactly when.
- A DISCOVER may shorten or drop its sender's own live lease: `DiscoverShortensOwnLease`
  says exactly when it does either and when it does neither.
- Scope ids wrap at 32 bits in a release build, so an id can be given twice:
  `NextIdIsFreshIffRoom` and `WrappedIdCollides`.
- Removing a reservation may leave a scope that serves nobody: `RemoveReservationMayStrand`.
- An accepted edit may leave a configuration file the server refuses to start from:
  `StepSpoilsIff` says exactly which edits do, `NestedScopeSpoils` that it happens, and
  `RestartIsAccepted` what holds for whole runs without them.
- A DECLINE is believed whoever sends it: it takes a live lease from another client, while
  a RELEASE is checked for ownership. `StrangerDisturbsIff`.
- Reaping is not neutral for a client that comes back to its own expired address:
  `ReapChangesGrantIff`.
- Option 61 identities stored as text are not read back: `OnlyMacsRoundTrip`.
- The SQL backend lets a client retake its own declined address and the in-memory store
  does not: `LookThenWriteIsClaim`, `BackendsAgree`. It also keeps a client's earlier row
  when it writes a new one, and does not keep declined rows for good: `InsertMirrorsIff`,
  `ReapMirrorsIff`.
- A listing order of overlapping scopes decides which one answers: `OrderMattersIff`.
- An edit of a scope cannot always be taken back by another: `PatchUndoneIff`.
- The renewal and rebinding times can coincide, or be out of order for very short leases:
  `TimersInOrder`.
- Asked about 255.255.255.255/32 a release build of the device scan wraps around and lists
  every other address: `HostsAreInterior`.
- An option 53 without a value makes the reply test read the next option's code:
  `ReplyTestIsExact` says exactly when that makes it wrong, `EmptyTypeIsMisread` that it
  happens.

Every lemma switches automatic induction off, so that each proof is the one written.

## Model

| member | source | states |
|---|---|---|
| `Exclusivity.OfferIsHonoured` | crates/lessor-core/src/server.rs:407-541 | an OFFER is a promise: under a fixed validated configuration, whatever other clients send before the offer runs out short of a DECLINE of the address, a client that does nothing in the scope but repeat its DISCOVER is offered the same address each time, and its REQUEST for it, by option 50 or ciaddr, is ACKed with exactly that address |
| `Exclusivity.BoundLeaseIsExclusive` | crates/lessor-core/src/server.rs:377-611 | until a Bound lease expires no run, administrative edits included, alters it or hands its address in its scope to another client, save the listed exceptions |
| `Exclusivity.RecordSurvivesRun` | crates/lessor-core/src/store.rs:71-77 | a record in force outlives any run of events that spare it, unchanged |
| `Agreement.AcknowledgedAddressIsExclusive` | crates/lessor-core/src/server.rs:466-541 | the same in terms of replies: after an ACK, nobody else is offered or acknowledged that address while the acknowledged lease runs; only an ACK for an address its client could not use, a reservation kept from it by a Declined record, is left out |
| `PoolUse.PoolIsUsedExactly` | crates/lessor-core/src/store.rs:255-281 | of distinct newcomers that DISCOVER before any offer runs out the first N get N different poolable addresses, whatever they ask for, and each later one is dropped as PoolExhausted with the state unchanged |
| `PoolUse.NewcomerDiscovers` | crates/lessor-core/src/server.rs:407-446 | a newcomer's DISCOVER takes an unused poolable address exactly when one is left |
| `Tables.UseIsExact` | crates/lessor-core/src/store.rs:102-107 | use is the number of the scope's records that are offered or bound and not over yet, and reaping does not change it |
| `PoolUse.UseIsCounted` | crates/lessor-core/src/store.rs:102-107 | after n newcomers exactly min(n, N) leases count as in use until the first offer runs out |
| `Integrity.EditsPreserveReservations` | crates/lessord/src/state.rs:685-899 | after any mix of packets, reaps, revocations and edits from an accepted start: distinct ids, every rule but perhaps the last still met, every record in a configured scope, no lease in use on an address reserved for a different client |
| `Integrity.NextIdIsFreshIffRoom` | crates/lessord/src/state.rs:730-733 | the id given to a new scope is unused iff the largest id is below 2^32-1 or no scope has id 0 |
| `Integrity.WrappedIdCollides` | crates/lessord/src/state.rs:730-733 | with ids 0 and 2^32-1 in use the next id is 0 again |
| `Integrity.RemoveReservationMayStrand` | crates/lessord/src/state.rs:861-880 | after removing a reservation the only rule that can fail is the last, exactly when the pools are empty and nobody else has a reservation |
| `Quarantine.DeclineQuarantines` | crates/lessor-core/src/server.rs:543-566 | after a DECLINE no OFFER or ACK hands the address out before the quarantine is over, except to a holder of its reservation, while the client the record names is silent; reaping does not matter |
| `Quarantine.NamedClientEndsQuarantineIff` | crates/lessor-core/src/store.rs:120-141 | a message of the client the record names ends the quarantine iff it obtains another address, declines another, or releases this one |
| `Quarantine.DeclinerFreesAddress` | crates/lessor-core/src/store.rs:120-128 | once the decliner has another address, the declined one is offered at once to a newcomer that asks for it |
| `Entitlement.RenewalFindsItsScope` | crates/lessor-core/src/server.rs:117-142 | with disjoint enabled validated scopes, in every reachable state a REQUEST carrying only the ciaddr in use is ACKed in the lease's own scope, same address, same creation time, on any listener |
| `Entitlement.RunKeepsEntitled` | crates/lessor-core/src/store.rs:214-282 | in every state reachable under a fixed configuration each lease in use is its owner's reservation if it has one, else poolable and not reserved for others |
| `Entitlement.OccupancyIsBounded` | crates/lessor-core/src/store.rs:102-107 | in any reachable state active leases of a scope never outnumber its distinct poolable or reserved addresses, hence never its capacity plus its reservations |
| `Agreement.AckMatchesTable` | crates/lessor-core/src/server.rs:487-540 | an ACK names the address in option 50, or else ciaddr, and the longest lease both limits allow, and the table holds that Bound lease until now + L, unless it is an unusable reservation, and then nothing changed |
| `Agreement.ReservationUnusableIffDeclined` | crates/lessor-core/src/store.rs:228-237 | under the reservation invariant a reserved address is unusable to its owner iff it carries a Declined record, its own or one that has not run out |
| `Agreement.ReservedRequestIsAcked` | crates/lessor-core/src/store.rs:228-237 | a REQUEST for one's own reservation is always ACKed; the Bound lease is on record iff no Declined record keeps the address, and else nothing changes |
| `Agreement.RequestVerdict` | crates/lessor-core/src/server.rs:466-541 | which REQUEST gets the silent drop, each of the four NAKs and the ACK, each iff told from the state before: ACK iff the named address is the client's reservation, or it has none and may keep that address, or has neither and can obtain it; "no longer yours" iff it gets a different one instead |
| `Agreement.NakMayBind` | crates/lessor-core/src/server.rs:513-529 | a NAK changes the table iff there is a usable address to give instead, and not already so recorded; that address is then Bound to the client |
| `Agreement.AskingElsewhereBinds` | crates/lessor-core/src/server.rs:513-529 | a client that may keep its address and asks for another is NAKed and bound to the one it had |
| `Agreement.DiscoverShortensOwnLease` | crates/lessor-core/src/server.rs:416-434 | a sender's Bound record is untouched by its DISCOVER iff the DISCOVER gets it nothing; else it is gone iff the address is no longer the client's to have, and otherwise a placeholder that loses time iff more was left than an offer lasts |
| `Agreement.TimersInOrder` | crates/lessor-core/src/server.rs:289-294 | T1 is half the lease and T2 at most 7/8 of it and less than 7 s below; exactly for which leases T1 <= T2, T1 < T2 and T2 < L (section 4.4.5 of RFC 2131) |
| `Answers.ServedAtHome` | crates/lessor-core/src/server.rs:117-142 | a packet is served iff it is a request with a type from an identified sender and some enabled scope contains its giaddr if set, else its ciaddr if set, else the listener's address; answers and changed records belong to such a scope |
| `Answers.RelayDecides` | crates/lessor-core/src/server.rs:128-136 | when giaddr is set neither the listener nor ciaddr changes the scope, nor what a DISCOVER or DECLINE does; when ciaddr is set the listener does not |
| `Answers.SendersCoincideIff` | crates/lessor-core/src/server.rs:145-160 | two identified senders are one client iff their option 61 values, or for lack of one the Ethernet form of their hardware addresses, are the same bytes |
| `Answers.WhyUnserved` | crates/lessor-core/src/server.rs:377-405 | the five reasons for dropping a packet no scope serves, each iff |
| `Answers.WhyRefused` | crates/lessor-core/src/server.rs:398-587 | the six reasons for dropping a packet a scope serves, each iff |
| `Answers.ReplyIsAddressed` | crates/lessor-core/src/server.rs:205-240 | a reply repeats transaction, hardware address and relay, names the listener in option 54, and goes to the relay, the client, or everyone; a NAK carries nothing else and an INFORM's answer no times |
| `Answers.LongestLeaseIsLent` | crates/lessor-core/src/server.rs:198-203 | every OFFER and every ACK to a REQUEST carries the largest lease within the scope's limit and option 51 |
| `Answers.MaskIsCarried` | crates/lessor-core/src/server.rs:289-294 | every reply but a NAK carries the subnet's mask |
| `Answers.GrantIsRecorded` | crates/lessor-core/src/server.rs:419-524 | after an OFFER or ACK of a usable address the table holds exactly the sender's record there, with expiry, names and creation time, instead of its other record; nothing else changes |
| `Answers.HandedAddressIsProper` | crates/lessor-core/src/store.rs:214-282 | in a validated scope one is given the first of one's own reservations, or else an address of a pool, in no exclusion, strictly inside the block, reserved for nobody and, unless one had it, not in use elsewhere |
| `Answers.AskedAddressIsOfferedIff` | crates/lessor-core/src/store.rs:255-264 | a newcomer is offered the address it asks for iff the scope may give it out and its last lease, if any, is over, to the second |
| `Answers.NewcomerIsOfferedFirst` | crates/lessor-core/src/store.rs:265-281 | otherwise it is offered the first address it can have in pool order, lowest first in a pool |
| `Answers.ReleaseFrees` | crates/lessor-core/src/server.rs:568-587 | a RELEASE removes the record at ciaddr, and makes the address usable by anyone, iff the record is the sender's, whatever its state; else it is refused and nothing changes |
| `Answers.ChoosingAnotherGivesUp` | crates/lessor-core/src/server.rs:475-485 | a REQUEST naming another server removes its sender's placeholder in the scope, and nothing else |
| `Answers.DeclineRecords` | crates/lessor-core/src/server.rs:543-566 | a DECLINE leaves a Declined record of its sender for exactly the scope's quarantine, whoever held the address, instead of the sender's other record |
| `Edits.AddedReservationIsInForce` | crates/lessord/src/state.rs:821-858 | an added reservation is the client's only one and in force, everyone else's are as before, a stranger's record on the address is gone, nothing else changed; refused iff the edited scope is not well formed |
| `Edits.NewReservationIsOffered` | crates/lessord/src/state.rs:821-858 | the client's next DISCOVER served there is offered the reserved address |
| `Edits.RemovedReservationIsGone` | crates/lessord/src/state.rs:861-880 | the client's reservations are gone, everyone else's and all leases as before, and the answer says whether there was one |
| `Edits.PatchIsCommitted` | crates/lessord/src/state.rs:754-795 | the patched scope takes the place of the old one iff it is well formed; nothing else changes |
| `Edits.RemovedScopeIsGone` | crates/lessord/src/state.rs:802-818 | the scope and its records are gone, other scopes and records stay |
| `Edits.AddedScopeIsServed` | crates/lessord/src/state.rs:685-748 | a scope is accepted iff well formed, reachable on an address of the machine, and sharing no listener with another; it is appended under the next id and listened for on the first such address |
| `Effects.EffectsAreConfined` | crates/lessor-core/src/server.rs:377-611 | a packet changes only its sender's record and the one address granted or declined, in the scope it selects, and takes only what was usable unless it is a DECLINE |
| `Effects.DropsAreNeutral` | crates/lessor-core/src/server.rs:475-485 | a dropped packet and every INFORM leave the table unchanged; choosing another server gives up at most one's own placeholder |
| `Effects.HandleActs` | crates/lessor-core/src/server.rs:377-405 | every packet performs at most one insertion or removal, of a kind its type allows |
| `Effects.AnswersComeFromAllocator` | crates/lessor-core/src/server.rs:407-464 | only OFFERs and ACKs to REQUESTs carry an address, and it is the allocator's choice |
| `Effects.StrangerDisturbsIff` | crates/lessor-core/src/server.rs:543-587 | a record that is not up for taking is disturbed by another client's packet iff that is a DECLINE of its address in its scope |
| `Effects.OtherScopesUntouched` | crates/lessor-core/src/server.rs:377-405 | a packet disturbs no record, not even its sender's, in a scope it does not reach |
| `Server.HandlePacket` | crates/lessor-core/src/server.rs:377-405 | the dispatcher on the mutable store does what the step function says |
| `Server.HandleDiscover` | crates/lessor-core/src/server.rs:407-446 | DISCOVER on the mutable store |
| `Server.HandleRequest` | crates/lessor-core/src/server.rs:466-541 | REQUEST on the mutable store, all four NAK cases and the silent drop |
| `Server.HandleDecline` | crates/lessor-core/src/server.rs:543-566 | DECLINE on the mutable store |
| `Server.HandleRelease` | crates/lessor-core/src/server.rs:568-587 | RELEASE on the mutable store |
| `Allocation.Allocate` | crates/lessor-core/src/store.rs:214-282 | the claim-as-you-go allocator returns the priority choice and records it; failed claims leave the store untouched |
| `Allocation.ClaimFirst` | crates/lessor-core/src/store.rs:265-281 | the candidate loop claims the first usable candidate or changes nothing |
| `Allocation.PickIsPriority` | crates/lessor-core/src/store.rs:190-213 | each of the four sources answers, and with which address, exactly when no earlier one can; a Pool grant is the first free address in pool order |
| `Allocation.PoolGrantIsFirst` | crates/lessor-core/src/store.rs:265-281 | with disjoint pools every obtainable address other than the one granted from the pool lies in a later pool, or higher in the same one |
| `Allocation.PickNoneIffExhausted` | crates/lessor-core/src/store.rs:255-282 | nothing is granted iff there is no reservation, no record to keep and no obtainable address |
| `Allocation.ReapChangesGrantIff` | crates/lessor-core/src/store.rs:165-177 | reaping changes what a later query is granted iff the client has no reservation and its own record, one it could have kept, had run out |
| `Allocation.ReapKeepsUsable` | crates/lessor-core/src/store.rs:71-77 | reaping changes nothing about which addresses can be used or obtained later |
| `Tables.LookupIsScan` | crates/lessor-core/src/store.rs:110-178 | after any operations the index maps a client to an address iff the record there is the client's, a client has one record per scope, and lookup by client equals a scan of the table |
| `Tables.IndexIsExactInverse` | crates/lessor-core/src/store.rs:79-85 | every sequence of operations keeps the two maps inverse |
| `Tables.AtInsert` | crates/lessor-core/src/store.rs:120-141 | after an insertion: the lease at its slot, nothing at the client's previous slot, everything else as before |
| `Store.MemoryStore.Insert` | crates/lessor-core/src/store.rs:120-141 | the in-place two-map update |
| `Store.MemoryStore.TryClaim` | crates/lessor-core/src/store.rs:39-48 | claim iff usable, else no change |
| `Store.MemoryStore.Remove` | crates/lessor-core/src/store.rs:143-150 | removal from both maps, returning what was there |
| `Store.MemoryStore.ClearScope` | crates/lessor-core/src/store.rs:158-163 | all records of one scope go, with their exact number |
| `Store.MemoryStore.Reap` | crates/lessor-core/src/store.rs:165-177 | removing stale records one by one drops exactly the expired records that are not Declined |
| `State.AppState.OnPacket` | crates/lessord/src/state.rs:476-483 | one packet under the write lock is one step |
| `State.AppState.AddScope` | crates/lessord/src/state.rs:685-748 | validation, listener search, clash test and id assignment |
| `State.AppState.PatchScope` | crates/lessord/src/state.rs:754-795 | an edit on a copy, committed only when it validates |
| `Admin.PatchSetsWhatItNames` | crates/lessord/src/state.rs:760-783 | a patch sets what it names, leaves alone what it does not and what is not editable, keeps offers within leases and never lengthens them, adds nothing when repeated, and is refused iff its pool is inverted |
| `Admin.PatchUndoneIff` | crates/lessord/src/state.rs:760-783 | some second patch restores the scope iff the first did not cut the lease below an offer and did not replace several pools, or none, by one |
| `State.AppState.RemoveScope` | crates/lessord/src/state.rs:802-818 | the scope goes with its leases, and the answer is how many went |
| `State.AppState.AddReservation` | crates/lessord/src/state.rs:821-858 | a client's reservation is replaced, validated, and a squatter's lease evicted |
| `State.AppState.RemoveReservation` | crates/lessord/src/state.rs:861-880 | reservations of a client go without re-validation |
| `State.AppState.Revoke` | crates/lessord/src/state.rs:883-889 | one lease removed, reporting whether it existed |
| `State.AppState.Reap` | crates/lessord/src/state.rs:892-899 | the reap step |
| `Restart.AddScopeKeepsCoherentIff` | crates/lessord/src/state.rs:685-748 | an accepted new scope keeps the start-up checks satisfied iff the listener added for it, if any, lies in no existing scope |
| `Restart.NestedScopeSpoils` | crates/lessord/src/state.rs:694-725 | a scope nested in an existing one, where the server does not listen yet, is accepted and leaves a configuration the next start refuses |
| `Restart.StepSpoilsIff` | crates/lessord/src/state.rs:685-880 | which single step turns an acceptable configuration into a refused one: such a scope, or the last reservation of a scope without pool addresses removed; no other |
| `Restart.RestartIsAccepted` | crates/lessord/src/config.rs:33-40 | after any run of packets and edits without those two, the start-up checks accept the configuration |
| `Sqlite.ClaimsAreExclusive` | crates/lessord/src/sqlite.rs:183-219 | however instances interleave, a claimed row stays its claimant's until expiry and every other client's claim of it fails, short of an unconditional write or delete |
| `Sqlite.SplitClaimsCollide` | crates/lessor-core/src/store.rs:29-38 | splitting the claim into look and write grants one free address to two clients, for every table, every two instances and every two clients |
| `Sqlite.LookThenWriteIsClaim` | crates/lessord/src/sqlite.rs:268-290 | uninterrupted, look-then-write leaves the same rows as the claim iff the row is not the claimant's own Declined record, or is already what the claim would write |
| `Sqlite.BackendsAgree` | crates/lessord/src/sqlite.rs:188-219 | without Free records both backends judge usability alike, and claims alike except on one's own Declined record |
| `Sqlite.SqliteStore.TryClaim` | crates/lessord/src/sqlite.rs:188-219 | the conditional write |
| `Sqlite.InsertMirrorsIff` | crates/lessord/src/sqlite.rs:156-181 | the unconditional write leaves what the in-memory store's leaves iff the client has no record at another address of the scope |
| `Sqlite.ReapMirrorsIff` | crates/lessord/src/sqlite.rs:249-257 | reaping leaves what the in-memory store's leaves iff no Declined record has run out |
| `Sqlite.RemovalsMirror` | crates/lessord/src/sqlite.rs:221-266 | removing a record and clearing a scope leave what the in-memory store's leave |
| `Validation.Validate` | crates/lessor-core/src/scope.rs:286-367 | the nested checking loops produce the rule-by-rule report, in order |
| `Validation.ValidateIsExact` | crates/lessor-core/src/scope.rs:284-367 | the report is empty iff the settings are well formed, stated with intervals instead of masks |
| `Validation.OverReservationReported` | crates/lessor-core/src/scope.rs:330-340 | an address is reported as over-reserved iff several reservations name it, with their exact number |
| `Validation.OverReservationReportedOnce` | crates/lessor-core/src/scope.rs:330-340 | no address is reported twice |
| `Reports.ReportIsExact` | crates/lessor-core/src/scope.rs:286-367 | an entry is in a scope's report iff what it names is wrong: which pool, which pair, which address, how many times |
| `Reports.ConfigReportIsExact` | crates/lessord/src/config.rs:44-103 | an entry is in the start-up report iff what it names is wrong |
| `Reports.RefusalIsExact` | crates/lessord/src/state.rs:685-728 | a new scope is refused for exactly the reasons that apply, naming the first scope it clashes with |
| `Validation.NetworkAddressIsAligned` | crates/lessor-core/src/scope.rs:295-300 | the mask test for a network address holds iff the address is a multiple of the block size |
| `Config.Check` | crates/lessord/src/config.rs:44-103 | the start-up checking loops |
| `Config.CheckIsExact` | crates/lessord/src/config.rs:42-103 | a configuration is accepted iff scopes are well formed, reachable by a listener or relay, and no listener lies in two of them |
| `Config.SelectionIgnoresOrder` | crates/lessor-core/src/server.rs:128-142 | in an accepted configuration a direct request at any listener selects the same scope, or fails the same way, in every order of the scopes |
| `Config.OrderMattersIff` | crates/lessor-core/src/server.rs:128-142 | for any scopes, some other listing order changes the selection iff two different enabled scopes contain the request's address |
| `Scopes.ContainsIsInterval` | crates/lessor-core/src/scope.rs:230-249 | masked equality is the interval from the network to the broadcast address, for every prefix |
| `Scopes.EndpointsPlaceRange` | crates/lessor-core/src/scope.rs:302-310 | checking a pool's endpoints places the whole pool |
| `Scopes.BlocksNestedOrDisjoint` | crates/lessor-core/src/scope.rs:246-249 | two blocks that share an address are nested |
| `Scopes.NetmaskRoundTrip` | crates/lessor-net/src/lib.rs:129-131 | counting the ones of a netmask gives back its prefix |
| `Scopes.PoolableAddrsExact` | crates/lessor-core/src/scope.rs:252-282 | disjoint pools list each poolable address once and the capacity is their number |
| `Scopes.PoolableAddrsInOrder` | crates/lessor-core/src/scope.rs:270-282 | disjoint pools are listed in configuration order, each from its lowest address up |
| `Bits.ShlMaxValue` | crates/lessor-core/src/scope.rs:230-239 | the shifted all-ones word is 2^32 - 2^k, and zero at 32 |
| `Bits.OperatorsActBitwise` | crates/lessor-core/src/scope.rs:241-249 | the arithmetic `&` and the arithmetic `or` act on every bit separately |
| `Addr.FromPartsSeparatesClients` | crates/lessor-core/src/addr.rs:106-120 | which option 61 values and hardware addresses name the same client |
| `Addr.RangeLaws` | crates/lessor-core/src/addr.rs:168-196 | overlap means a shared address; the iterator yields `len` addresses in ascending order |
| `Text.HexRoundTrip` | crates/lessor-core/src/addr.rs:138-159 | decoding undoes encoding on every byte string |
| `Text.PrintHex` | crates/lessor-core/src/addr.rs:141-147 | the printing loop |
| `Text.ReadMac` | crates/lessor-core/src/addr.rs:61-72 | the loop that fills six bytes |
| `Text.ParseMacIsExact` | crates/lessor-core/src/addr.rs:56-73 | a text is read as an address iff its hexadecimal digits, any case and anything between, spell it |
| `Text.PrintedMacSpells` | crates/lessor-core/src/addr.rs:39-44 | an address is printed as six pairs of lower-case digits with colons between |
| `Text.EncodingSpells` | crates/lessor-core/src/addr.rs:141-147 | a byte string is encoded as two lower-case digits a byte, the high one first |
| `Text.DecodesIff` | crates/lessor-core/src/addr.rs:149-158 | a text is decoded iff it is made of pairs of digits, a plus sign counting as the first of a pair; encoding gives it back, in lower case, iff it has no plus sign |
| `Text.Opt61IsWrittenAndRead` | crates/lessord/src/sqlite.rs:92-111 | option 61 is written after `id:` and read after `opt61:` |
| `Text.MacRoundTrip` | crates/lessor-core/src/addr.rs:39-44 | reading undoes printing |
| `Text.ClientTextInjective` | crates/lessord/src/sqlite.rs:92-94 | texts are equal iff identities are |
| `Text.OnlyMacsRoundTrip` | crates/lessord/src/sqlite.rs:96-111 | a stored identity is read back unchanged iff it is a hardware address |
| `Walkers.UserClassHasIpxe` | crates/lessor-core/src/server.rs:247-267 | the index loop over user classes terminates, stays in bounds and follows the walk |
| `Walkers.IpxeInAnyCase` | crates/lessor-core/src/server.rs:247-252 | a class counts as iPXE iff it is those four letters in any case |
| `Walkers.IpxeTestIsExact` | crates/lessor-core/src/server.rs:243-267 | on every encoded list the test holds iff some class is iPXE ignoring case (section 4 of RFC 3004) |
| `Walkers.CheckReply` | crates/discovery/src/lib.rs:275-301 | the index loop over options terminates, stays in bounds and follows the walk |
| `Walkers.ReplyTestIsExact` | crates/discovery/src/lib.rs:274-301 | on every well-formed field (section 2 of RFC 2132) the test says whether opcode, transaction id and cookie match and the first message type is OFFER or ACK, and is wrong iff they match and that type has no value and an option with code 2 or 5 comes next |
| `Walkers.EmptyTypeIsMisread` | crates/discovery/src/lib.rs:293-298 | whatever options come before, an option 53 without a value followed by option 2 or 5 passes for a reply |
| `Walkers.BuildDiscover` | crates/discovery/src/lib.rs:255-272 | the probe, byte for byte |
| `Walkers.ProbeLayout` | crates/discovery/src/lib.rs:255-272 | where hardware address, transaction, broadcast flag and cookie sit in the probe, and zeros elsewhere |
| `Walkers.ProbeAndItsReply` | crates/discovery/src/lib.rs:251-301 | the probe is never a reply; its OFFER or ACK is a reply to exactly its own transaction |
| `Discovery.HostsAreInterior` | crates/discovery/src/lib.rs:82-96 | for every prefix, 33 to 255 included, the host list is the open interval between network and broadcast address iff the input is not 255.255.255.255 with a prefix of 32 or more |
| `Discovery.NetworkEnclosesAddress` | crates/lessor-net/src/lib.rs:82-93 | the network and broadcast address of any address enclose it and are a full block apart |

## Left out

- UDP sockets, binding, hot-plug, back-off, HTTP, events, metrics, persistence, capture, service installation and the user interface: I/O around the core.
- Boot options, options 60, 43 and 82, router, DNS and domain options, extra raw options: each is settled by reading one branch. Extra options are assumed not to use codes 51, 54, 58 or 59.
- The wire format of received messages: a message is the record of the fields the handlers read, and option 60 is already text.
- `make_lease` closures: the lease an allocation writes is a template whose address is filled in, which is what both call sites do.
- Time is unbounded: an expiry past 2^64 seconds does not wrap.
- Address probing and its cache: the occupied addresses are an arbitrary set given with each packet.
- Interface enumeration when a scope is added: the machine's serving addresses are an argument.
- The configuration file itself: what is written back is taken to be the listeners and scopes in memory.
- The reply is built as a value, not by filling a message in place; the hardware type and flags it repeats are not part of it.
- SQLite itself: each statement is one atomic step on a map, and 64-bit conversions and swallowed errors are not modelled. Each statement is compared with the in-memory store by itself; over runs only the claim protocol is covered, because the SQL backend does not refine the store.
- `LeaseStore::all`, the JSON forms, command-line parsing, `Config::from_quick` and the slicing of non-ASCII text in hexadecimal decoding.
- Integrity.EditsPreserveReservations: assumes ids do not run out, which the program does not check; `NextIdIsFreshIffRoom` is the exact condition.
