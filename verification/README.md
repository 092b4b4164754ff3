# A model of the DIFS repository

DIFS is a distributed repository for Named Data Networking, written in C++. A cluster of nodes shares a ring of
hash ranges, the *keyspace*. A file is stored as a chain of signed segments on some nodes, and as one *manifest*, which
lists those nodes, on the node that owns the file name's SHA-1 key.

The project models the stateful core of the program and proves what it promises over all inputs and all runs.
`dafny verify dfyconfig.toml` checks everything.

| file | what it models |
|---|---|
| `Options.dfy`, `Tlv.dfy`, `HexText.dfy`, `Ndn.dfy` | optional and fallible results; the TLV format of the NDN Packet Format Specification 0.3, section "Type-Length-Value (TLV) Encoding"; hexadecimal texts; names and packets |
| `Manifests.dfy`, `Storage.dfy` | the manifest record, its key and its two JSON trees; the storage front end over an abstract back end |
| `TcpFraming.dfy` | bulk insertion over TCP: one fixed buffer, filled by fragments, drained element by element, compacted in place |
| `Keyspace.dfy`, `Routing.dfy`, `KeyspaceNode.dfy` | the table of ranges and its two operations; routing and the migration filter; the handler object |
| `VersionAgreement.dfy` | announce, fetch and reply as a message-passing system |
| `Migration.dfy`, `MigrationPlacement.dfy`, `MigrationRun.dfy` | the migration of manifests as another one; where it puts them under the tables of an add-node or del-node command; runs of it that complete, and some that misplace |
| `Encoding.dfy`, `CommandParameter.dfy`, `CommandResponse.dfy` | the prepend encoder, the find-by-type decoders, the cached wires |
| `FileProducer.dfy`, `Consumers.dfy` | cutting a file into a hash chain of segments, serving them, and reassembling |
| `DeleteProcess.dfy`, `InsertProcess.dfy` | the delete protocol; insert processes with their counters, deadlines and status codes |
| `PrefixCounts.dfy`, `ManifestHandles.dfy` | reference counts of registered prefixes; creating and finding manifests |

A method that changes state in the source is a method of a class here, proved equal to a function on values; runs and
protocols are folds of those functions, and the theorems are about the folds. Messages of the two ring protocols stay
in the network for ever, so each may be delivered late, repeatedly, out of order or never.

## What turned out not to hold

Each of these is a lemma with the exact condition or a concrete input. Where the source's comments say otherwise, the
model follows the code.

- Routing pads a byte to two digits and the migration filter does not (`Routing.FilterIsExactIff`). When the new table
  reaches a joining node before the list of manifests does, a complete migration therefore places everything if and
  only if no manifest of the moved range has a byte below 0x10, whatever the range (`MigrationPlacement.AddPlacesIff`).
  Manifests with such a byte stay with the old owner unless the node sweeps under the range it held before
  (`MigrationPlacement.LowKeysNeverLeave`). After a del-node into another member, again with the table first, the same
  holds unless the united range starts at 0 (`MigrationPlacement.DeletePlacesIff`).
- A manager never sets its own range (`VersionAgreement.ManagerKeepsItsRange`). When a node is deleted into the manager,
  the usual case of undoing a join, the manager filters with whatever its two ints hold, and every manifest ends on its
  owner if and only if that range matches every manifest of the deleted node
  (`MigrationPlacement.DeleteIntoManagerPlacesIff`); with two zeros, only if all of them are below 0x10
  (`MigrationPlacement.DeleteIntoZeroManagerPlacesIff`, `MigrationRun.ManagerRunExists`). When one node is left, the
  command itself tells nobody (`KeyspaceNode.NobodyIsToldIff`, `KeyspaceNode.LastDeleteTellsNobody`); a fetch of an
  earlier version that arrives late still starts a coordination (`VersionAgreement.LateFetchCoordinates`).
- A coordination can reach a node before any table does (`VersionAgreement.CoordinationCanComeFirst`), and the node then
  filters with the range that its two ints happen to hold. When the table comes only after the sweep, everything is
  placed if and only if that range matches exactly the manifests that move (`MigrationPlacement.OneRangePlacementIff`).
  There are complete runs of that kind (`MigrationRun.EarlySweepPlacesIff`), and with two zeros they fail as soon as a
  manifest at 0x10 or above moves or one below 0x10 stays (`MigrationRun.EarlySweepMisplaces`). When the table comes
  between a list and the sweep, manifests that do not move can be taken along (`MigrationRun.EarlyListMisplaces`).
  `MigrationPlacement.PlacementIff` says for every settled run, in whatever order the messages came, exactly when
  everything is placed, manifest by manifest.
- An only-delete that is handled before the taking node has stored the manifest loses it (`Migration.DeleteLosesIff`).
- Deleting a node into one that is not its neighbour leaves overlapping ranges, and into an unknown one a hole
  (`Keyspace.DeleteKeepsRingIff`); deleting an unknown node writes uninitialised numbers into the receiver's entry
  (`Keyspace.DeleteUnknownKeepsRingIff`); splitting a one-byte range leaves an empty one (`Keyspace.AddKeepsRingIff`,
  `Keyspace.OneByteSplit`).
- A non-empty file whose size is a multiple of the block size yields no segments at all, although a manifest is
  announced for it (`FileProducer.ProducedContentsIff`, `FileProducer.CountsAgreeIff`).
- `setCode` leaves the cached wire in place, so a response that was encoded once keeps its old status code on the wire
  (`CommandResponse.StatusCodeSticksOnTheWire`). A check command that discovers a timeout reports it if and only if a
  segment was inserted since the last check, or 405 was sent before (`InsertProcess.TimeoutIsReportedIff`).
- The number of deleted packets that is reported is the number of attempts (`DeleteProcess.ReportedCountIff`).
- Insertions are counted, not segments: an insert completes exactly when there are enough successes
  (`InsertProcess.CompleteIffEnoughSuccesses`), and so too early when they are not all of the range
  (`InsertProcess.PrematureIff`), as when one packet comes again and again
  (`InsertProcess.DuplicatesCompleteTooEarly`). A range of all 2^64 block ids completes at once
  (`InsertProcess.WholeIdSpaceCompletesAtOnce`), and an insert of a single name never reports completion
  (`InsertProcess.SingleInsertNeverCompletes`).
- The comment at `src/handles/write-handle.hpp:89-96` says that every status check resets the deadline; a check after it
  has passed does not. An expired deadline changes if and only if the manifest of a single insert arrives
  (`InsertProcess.ExpiredStaysIff`, `InsertProcess.SingleInsertRevives`).
- With prefix length 0, or names shorter than it, deletion looks up another prefix than insertion registered
  (`PrefixCounts.SamePrefixIff`, `PrefixCounts.ZeroLengthLeaks`). Besides, `RepoStorage::deleteData` never emits the signal
  that would lower the counts (`Storage.RepoStorage.DeleteData`).
- The manifest of an empty file ends at block -1 (`FileProducer.CountsAgreeIff`). A repo that is listed with that end is
  asked to delete up to the largest block id, so a manifest that lists one is never erased
  (`DeleteProcess.EndlessIsNeverErased`).
- A manifest without repos cannot be read back from its own JSON (`Manifests.JsonRoundTrip`).
- A file's manifest is stored under the key of the last component of its name, while get and delete commands look under
  the key of the whole name, and find it if and only if the two keys are equal
  (`ManifestHandles.FoundUnderWholeNameIff`).
- Command fields that are set as whole blocks only survive a round trip when the caller gave them the right type number
  (`CommandParameter.RoundTripIff`). Decoding into an object that is not fresh restores the fields if and only if the
  object lacked every field that was not encoded (`CommandParameter.DecodeIntoUsedIff`).

## Main results

- Stream framing: `TcpFraming.FragmentationIndependence`, `TcpFraming.ClosesExactlyWhenHeadCannotFit`,
  `TcpFraming.FittingStreamIsDelivered`, `TcpFraming.StreamIsStoredUnchanged`.
- Ring and routing: `Keyspace.CommandKeepsRingIff`, `Keyspace.SafeCommandsKeepRing`, `Routing.RoutingRefinesOwnership`,
  `VersionAgreement.VersionAgreement`, `VersionAgreement.EverybodyCanCatchUp`,
  `VersionAgreement.EveryInstalledTableRoutes`.
- Migration: `Migration.NothingIsLost`, `Migration.SettledIff`, `MigrationPlacement.PlacementIff`,
  `MigrationPlacement.AddPlacesIff`, `MigrationPlacement.DeletePlacesIff`,
  `MigrationPlacement.DeleteIntoManagerPlacesIff`, `MigrationRun.CompleteRunExists`,
  `MigrationRun.EarlySweepPlacesIff`.
- Codecs: `CommandParameter.RoundTripIff`, `CommandParameter.DecodeIntoUsedIff`, `CommandParameter.CachedWireIsCoherent`,
  `CommandResponse.RoundTripIff`, `CommandResponse.CachedWireIsStaleOnlyInStatusCode`.
- Files: `FileProducer.HashChainCommitment`, `Consumers.EveryRoundAsksForAll`, `Consumers.OutputIsWholeCopies`,
  `Consumers.PutThenReassemble`.
- Processes: `DeleteProcess.FinishedRunRemovesExactlyTheList`, `DeleteProcess.ErasedOnlyWhenAllAnswered`,
  `InsertProcess.StatusMachine`, `InsertProcess.CompleteIffEnoughSuccesses`, `InsertProcess.CompleteIffAllInserted`,
  `InsertProcess.TimedOutIff`, `InsertProcess.TimeoutIsReportedIff`, `PrefixCounts.CountsAreBalancesIff`.

## Model

| member | source | states |
|---|---|---|
| Tlv.ReadElementIff | src/handles/tcp-bulk-insert-handle.cpp:165 | the element reader succeeds exactly on inputs that start with the encoding of a well-formed element, and returns that element and its size |
| Tlv.ReadElementStable | src/handles/tcp-bulk-insert-handle.cpp:164-169 | prefix stability: bytes that arrive after a complete element never change what is read |
| Tlv.ParseElementsIff | src/repo-command-parameter.cpp:197 | parsing a value into sub-elements succeeds exactly on concatenations of encodings and returns the encoded list |
| Tlv.NonNegativeIntegerRoundTrip | src/repo-command-parameter.cpp:233-237 | every 64-bit number reads back from its shortest encoding |
| Tlv.BigEndianAt | src/repo-command-parameter.cpp:233-237 | numbers are written with the most significant byte first |
| Tlv.VarNumberForm | src/repo-command-parameter.cpp:233-237 | types and lengths take one, three, five or nine bytes, the shortest that fits, with the marks 253, 254 and 255 |
| Tlv.NonNegativeIntegerForm | src/repo-command-parameter.cpp:233-237 | values take one, two, four or eight bytes, the shortest that fits |
| Manifests.HashOfName | src/manifest/manifest.cpp:13-27 | a key is forty lower-case hexadecimal digits, and its first two spell the digest's top byte |
| Manifests.KeyShape | src/manifest/manifest.cpp:22-26 | the same for the key as a function, for every name and digest |
| Manifests.WordsTextAt | src/manifest/manifest.cpp:22-26 | each word of the digest is spelled by its eight digits, at its place in the key |
| Manifests.SameKeyIff | src/manifest/manifest.cpp:13-27 | two names have the same key if and only if they have the same digest |
| HexText.FixedHexAt | src/manifest/manifest.cpp:22-26 | each digit is the one that the number has at that place |
| HexText.HexDigitIs | src/manifest/manifest.cpp:22-26 | the digits are 0 to 9 and a to f |
| Manifests.ToJson | src/manifest/manifest.cpp:121-153 | the written tree: storages only for a non-empty repo list, segment only for an empty one |
| Manifests.FromJson | src/manifest/manifest.cpp:93-119 | the parsed manifest keeps all repos in order and drops the stored hash; without storages it throws |
| Manifests.JsonShows | src/manifest/manifest.cpp:66-153 | the tree shows each repo with its own name, start and end, the names and block numbers of the manifest, and its key; the short form shows name, key and end block |
| Manifests.JsonRoundTrip | src/manifest/manifest.cpp:93-153 | reading back works if and only if there is a repo, and then keeps name, repos, block range and key |
| Manifests.InfoJsonRoundTrip | src/manifest/manifest.cpp:55-91 | the short form keeps name, end block and key, and the whole manifest exactly when there was nothing else |
| Storage.RepoStorage.constructor | src/storage/repo-storage.cpp:32-35 | a new storage front end holds nothing and has signalled nothing |
| Storage.RepoStorage.InsertData | src/storage/repo-storage.cpp:37-53 | a held full name or a refusal changes nothing; otherwise the packet itself is stored under its name and exactly that name is signalled |
| Storage.RepoStorage.DeleteData | src/storage/repo-storage.cpp:55-64 | removes one name, returns 1 or -1, and emits no signal |
| Storage.RepoStorage.InsertManifest | src/storage/repo-storage.cpp:80-88 | stores the manifest's JSON under its key, and nothing else changes |
| Storage.RepoStorage.ReadManifest | src/storage/repo-storage.cpp:90-96 | parses what is stored under a key; absent and unreadable are told apart |
| Storage.RepoStorage.DeleteManifest | src/storage/repo-storage.cpp:98-106 | removes the key and is true in any case |
| Storage.LastInsertionIsHeld | src/storage/repo-storage.cpp:37-53 | after any insertions each name holds the last packet that went through under it, unchanged, or what it held before; exactly those insertions are signalled, in order |
| Storage.OnlyInsertedIsNew | src/storage/repo-storage.cpp:37-53 | whatever is held was held before or was inserted, unchanged, under its own name |
| Storage.ReadBackManifest | src/storage/repo-storage.cpp:80-96 | an inserted manifest reads back under its key, without its explicit hash, if and only if it lists a repo |
| TcpFraming.DrainIsFraming | src/handles/tcp-bulk-insert-handle.cpp:164-186 | draining loses nothing: elements and remainder make up the stream, and the remainder starts with no complete element |
| TcpFraming.FramingIsDrain | src/handles/tcp-bulk-insert-handle.cpp:164-186 | there is only one such framing of a stream |
| TcpFraming.DrainAppend | src/handles/tcp-bulk-insert-handle.cpp:164-203 | draining in two parts with the remainder kept is draining at once |
| TcpFraming.ElementsInsertDecodable | src/handles/tcp-bulk-insert-handle.cpp:172-185 | handling the elements inserts exactly the decodable Data among them, in order |
| TcpFraming.FragmentationIndependence | src/handles/tcp-bulk-insert-handle.cpp:156-207 | for every cutting into receives, while the connection is open, the buffer holds exactly the unparsed suffix of the whole stream and the store has exactly the decodable Data of its complete elements |
| TcpFraming.DecodableIff | src/handles/tcp-bulk-insert-handle.cpp:172-185 | what is inserted are exactly the packets that elements of type 6 decode to |
| TcpFraming.StreamIsStoredUnchanged | src/handles/tcp-bulk-insert-handle.cpp:156-207 | for every cutting, each packet in the store was there before or is one of the Data received, and the last insertion under each name that went through is held, unchanged |
| TcpFraming.SameStreamSameState | src/handles/tcp-bulk-insert-handle.cpp:156-207 | two cuttings of one stream that both leave the connection open leave the same state |
| TcpFraming.ClosesExactlyWhenHeadCannotFit | src/handles/tcp-bulk-insert-handle.cpp:188-193 | the connection is closed for size exactly when the pending head is an element that no full buffer can hold or no element at all |
| TcpFraming.FittingStreamStaysOpen | src/handles/tcp-bulk-insert-handle.cpp:164-207 | a stream of elements that each fit the buffer never closes the connection, however it is cut |
| TcpFraming.FittingStreamIsDelivered | src/handles/tcp-bulk-insert-handle.cpp:164-207 | such a stream is inserted completely and leaves an empty buffer |
| TcpFraming.TcpBulkInsertClient.constructor | src/handles/tcp-bulk-insert-handle.cpp:32-48 | a connection starts with an empty buffer and a pending receive |
| TcpFraming.TcpBulkInsertClient.ParseLoop | src/handles/tcp-bulk-insert-handle.cpp:160-186 | each element strictly advances the offset; the loop stops at the end of the unique framing and has handled all its elements |
| TcpFraming.TcpBulkInsertClient.CopyToFront | src/handles/tcp-bulk-insert-handle.cpp:197 | the overlapping copy moves the suffix to the front of the buffer unchanged |
| TcpFraming.TcpBulkInsertClient.Compact | src/handles/tcp-bulk-insert-handle.cpp:195-203 | the first bytes are dropped, the rest keep their order |
| TcpFraming.TcpBulkInsertClient.CloseOrCompact | src/handles/tcp-bulk-insert-handle.cpp:188-203 | the size test closes only a full buffer from which nothing was parsed |
| TcpFraming.TcpBulkInsertClient.HandleReceive | src/handles/tcp-bulk-insert-handle.cpp:142-208 | one receive completion does what the value-level step says; the fill never exceeds the buffer, and a re-armed receive has room |
| Keyspace.InitialTableIsRing | src/handles/keyspace-handle.cpp:43-59 | the first table is one range over all bytes |
| Keyspace.SplitHalves | src/handles/keyspace-handle.cpp:272-294 | a split of two bytes or more gives two non-empty adjoining ranges whose sizes differ by at most one |
| Keyspace.HalfTruncates | src/handles/keyspace-handle.cpp:274 | the size of a split is truncated towards zero, for inverted ranges too |
| Keyspace.OneByteSplit | src/handles/keyspace-handle.cpp:272-294 | a split of one byte leaves the old node an empty range; at byte 0 its end is printed as 0xffffffff |
| Keyspace.AddKeepsRingIff | src/handles/keyspace-handle.cpp:265-308 | an add with an unknown source does nothing; with a known one it keeps the ring if and only if the source has two bytes at least and the target is new |
| Keyspace.DeleteKeepsRingIff | src/handles/keyspace-handle.cpp:333-361 | deleting a known node keeps the ring if and only if the receiver is another known node whose range adjoins |
| Keyspace.DeleteKeepsCoverage | src/handles/keyspace-handle.cpp:333-361 | every byte stays covered when a node is deleted into any present node, adjacent or not |
| Keyspace.AddThenDeleteRestoresIff | src/handles/keyspace-handle.cpp:250-361 | deleting the new node back into its source restores the table itself, so every owner, if and only if the source range was not empty |
| Keyspace.DeleteUnknownKeepsRingIff | src/handles/keyspace-handle.cpp:312-361 | deleting a node that is not in the table keeps the ring if and only if the receiver is not in it either, or the two uninitialised numbers leave its entry as it was |
| Keyspace.CommandKeepsRingIff | src/handles/keyspace-handle.cpp:250-361 | for every command the exact condition under which the ring survives, which the checkable condition implies |
| Keyspace.SafeCommandsKeepRing | src/handles/keyspace-handle.cpp:250-361 | after any sequence of safe adds and deletes the ranges are non-empty, disjoint, and cover 0x00 to 0xff |
| Routing.GetManifestStorage | src/handles/keyspace-handle.cpp:641-670 | the nested loops over entries and prefixes compute the routing function |
| Routing.RouteIs | src/handles/keyspace-handle.cpp:641-670 | for any table, the first entry that takes the hash is returned, the first with an unparsable number throws, whichever comes first, and else the name is empty |
| Routing.RoutingRefinesOwnership | src/handles/keyspace-handle.cpp:641-670 | on a partition, the loops return the one node whose range contains the hash's top byte, and never the empty name |
| Routing.RouteIsOwner | src/handles/keyspace-handle.cpp:650-667 | the prefix test is the range test, for every table of byte ranges |
| Routing.SelectKeys | src/handles/keyspace-handle.cpp:430-442 | the filter loops select each key as often as the unpadded text of a number of the range is a prefix of it, negative numbers printed as 32-bit ones |
| Routing.SelectedIff | src/handles/keyspace-handle.cpp:430-442 | a key is selected if and only if it is listed and matched at least once |
| Routing.FilterIsExactIff | src/handles/keyspace-handle.cpp:430-442 | the filter selects exactly the keys of a range, each once, if and only if the range starts at 0x10 or above |
| Routing.LowRangeMishandles | src/handles/keyspace-handle.cpp:436 | for every lower start there is a key that is missed or selected twice |
| KeyspaceNode.KeySpaceHandle.constructor | src/handles/keyspace-handle.cpp:61-118 | a manager starts with the first table, a member with nothing; the configured old owner is remembered, and the two ints hold anything |
| KeyspaceNode.AnnouncedIff | src/handles/keyspace-handle.cpp:131-163 | exactly the nodes of the second and later entries are told, and of that version |
| KeyspaceNode.FetchesIff | src/handles/keyspace-handle.cpp:120-129 | an announcement makes a node fetch exactly a version that it has not got |
| KeyspaceNode.NobodyIsToldIff | src/handles/keyspace-handle.cpp:131-163 | a command that changes the table sends no announcement itself exactly when at most one entry is left |
| KeyspaceNode.LastDeleteTellsNobody | src/handles/keyspace-handle.cpp:311-372 | the command that ends a cluster of two sends no announcement |
| KeyspaceNode.KeySpaceHandle.InitKeySpaceFile | src/handles/keyspace-handle.cpp:43-59 | publishes the first table under the counter's old value |
| KeyspaceNode.KeySpaceHandle.OnVersionCommand | src/handles/keyspace-handle.cpp:131-163 | every entry of the table but the first is told the version |
| KeyspaceNode.KeySpaceHandle.OnFetchCommandResponse | src/handles/keyspace-handle.cpp:211-240 | installs table and version together and reads the node's own range |
| KeyspaceNode.KeySpaceHandle.HandleAddCommand | src/handles/keyspace-handle.cpp:249-310 | the search, split, republication and announcement, equal to the table-level add |
| KeyspaceNode.KeySpaceHandle.HandleDeleteCommand | src/handles/keyspace-handle.cpp:311-372 | the two searches, the merge and the republication, equal to the table-level delete |
| KeyspaceNode.KeySpaceHandle.HandleCoordinationCommand | src/handles/keyspace-handle.cpp:505-520 | remembers the old owner and asks it for its list |
| KeyspaceNode.KeySpaceHandle.OnManifestListCommandResponse | src/handles/keyspace-handle.cpp:412-446 | remembers the list, asks for each selected manifest, then reports completion |
| KeyspaceNode.KeySpaceHandle.OnCompleteCommandResponse | src/handles/keyspace-handle.cpp:583-605 | has each selected manifest deleted at the old owner |
| VersionAgreement.VersionAgreement | src/handles/keyspace-handle.cpp:121-240 | under any delay, loss, repetition and reordering, every node's table is the one that the manager published under that node's version |
| VersionAgreement.SameVersionSameRouting | src/handles/keyspace-handle.cpp:121-240 | two nodes at one version route every hash alike |
| VersionAgreement.PublishedIsFinal | src/handles/keyspace-handle.cpp:301 | no step changes what was published under a version |
| VersionAgreement.ListedAreTold | src/handles/keyspace-handle.cpp:131-163 | after every command that changes the table, and every timeout, each later entry's node has been told the manager's version |
| VersionAgreement.ToldCatchesUp | src/handles/keyspace-handle.cpp:120-240 | a member that is told and is at another version has the manager's table and version once announcement, fetch and reply are delivered, and nobody else has changed |
| VersionAgreement.EverybodyCanCatchUp | src/handles/keyspace-handle.cpp:120-240 | from every reachable state there is a continuation after which every started node of the table but the first entry's has the manager's table and version |
| VersionAgreement.PublishedAreRings | src/handles/keyspace-handle.cpp:301-367 | when the operator's commands are safe, every published table is a ring |
| VersionAgreement.EveryInstalledTableRoutes | src/handles/keyspace-handle.cpp:641-670 | then every node that has a table routes every well-formed hash to a node that owns it |
| VersionAgreement.ManagerKeepsItsRange | src/handles/keyspace-handle.cpp:211-240 | in every run no table is addressed to the manager, and its filter uses what its two ints held at the start |
| VersionAgreement.CoordinationCanComeFirst | src/handles/keyspace-handle.cpp:178-189 | there is a run in which the coordination of a new node is on the wire while that node has never received a table, whatever its ints hold, and delivering it changes nothing but whom the node will ask |
| VersionAgreement.LateFetchCoordinates | src/handles/keyspace-handle.cpp:178-189 | there is a run in which the delete that leaves the manager alone has coordinated nobody, and a fetch of the earlier version that arrives after it makes the manager coordinate itself with the deleted node |
| Migration.InsertedIsWellKept | src/storage/repo-storage.cpp:80-88 | what insertManifest stores satisfies the form that the migration theorems ask of stored manifests |
| Migration.FindAndStoreCopies | src/handles/manifest-handle.cpp:182-203 | finding a manifest at its old owner and storing the reply copies the JSON unchanged |
| Migration.RunKeepsInv | src/handles/keyspace-handle.cpp:413-627 | whatever range the taking node holds when, every delivery of every message keeps the invariant: stores, messages and list agree about what was asked for and ordered |
| Migration.NothingIsLost | src/handles/delete-handle.cpp:141-158 | at every point of a run whose only-deletes come after the store, every manifest is on at least one node, unchanged |
| Migration.DeleteLosesIff | src/handles/delete-handle.cpp:141-158 | an only-delete loses its manifest if and only if the taking node does not hold it yet |
| Migration.SettledIff | src/handles/keyspace-handle.cpp:413-627 | when everything asked for is stored and everything ordered deleted, a manifest of the source is at the target if and only if a list was filtered by a range matching its key, and gone from the source if and only if a sweep was |
| Migration.LeavesOnlyWhenSwept | src/handles/keyspace-handle.cpp:584-627 | in any run at all, a manifest leaves the source only after a sweep under a range that matches its key |
| MigrationPlacement.AddIsTakeover | src/handles/keyspace-handle.cpp:265-308 | an add hands exactly the upper half of the source's bytes to the new node and leaves every other byte with its owner |
| MigrationPlacement.DeleteIsTakeover | src/handles/keyspace-handle.cpp:333-361 | a delete into an adjacent node hands all bytes of the deleted node to it; its new range is the union |
| MigrationPlacement.MatchesIff | src/handles/keyspace-handle.cpp:434-440 | up to a range's end, the filter selects the keys of the range, except those below 0x10 unless the range starts at 0 or below |
| MigrationPlacement.ZeroRangeMatchesIff | src/handles/keyspace-handle.cpp:434-440 | two ints that happen to be 0 select exactly the keys below 0x10 |
| MigrationPlacement.PlacementIff | src/handles/keyspace-handle.cpp:250-627 | in every settled run, in whatever order the messages came, for a member and for the manager: every manifest is exactly on its owner under the new table if and only if each one that moves was matched by a sweep and none that stays was matched by a list |
| MigrationPlacement.OneRangePlacementIff | src/handles/keyspace-handle.cpp:413-627 | when lists and sweeps were all filtered under one range, old or new, everything is placed if and only if this range matches exactly the manifests that move |
| MigrationPlacement.NewSweepPlacementIff | src/handles/keyspace-handle.cpp:413-627 | when one sweep was under the new range, everything is placed if and only if each one that moves is at 0x10 or above, or the new range starts at 0, or a sweep under the old range matched it, and none that stays was selected from an early list |
| MigrationPlacement.CoordinatedLastIsTableFirst | src/handles/keyspace-handle.cpp:211-240 | a run that handles the coordination after the table handles every list after the table |
| MigrationPlacement.TableFirstPlacesIff | src/handles/keyspace-handle.cpp:413-627 | a complete run with the table first places everything if and only if no moved manifest is below 0x10, or the new range starts at 0 |
| MigrationPlacement.AddPlacesIff | src/handles/keyspace-handle.cpp:250-627 | after a node has joined: if every manifest sat on its owner, then after every complete run with the table first every manifest sits exactly on its owner if and only if no manifest of the moved range is below 0x10 |
| MigrationPlacement.DeletePlacesIff | src/handles/keyspace-handle.cpp:312-627 | after a node has been deleted into an adjacent member: every complete run with the table first places everything exactly if and only if the united range starts at 0 or the deleted node had no manifest below 0x10 |
| MigrationPlacement.PlacedIffAllRight | src/handles/keyspace-handle.cpp:413-627 | at any point of any guarded run, whether everything is on its owner is decided by the manifests of the source alone |
| MigrationPlacement.TablelessMovesIff | src/handles/keyspace-handle.cpp:430-442 | a receiver that gets no table takes exactly the manifests that the range it happens to hold matches |
| MigrationPlacement.DeleteIntoManagerPlacesIff | src/handles/keyspace-handle.cpp:312-627 | after a node has been deleted into the manager, a settled run has placed everything if and only if the manager's own range matches every manifest of the deleted node |
| MigrationPlacement.DeleteIntoZeroManagerPlacesIff | src/handles/keyspace-handle.cpp:595 | with two zeros, if and only if every manifest of the deleted node is below 0x10 |
| MigrationPlacement.LowKeysNeverLeave | src/handles/keyspace-handle.cpp:597 | a moved manifest of any byte below 0x10 never leaves its old owner, in any run that does not sweep under the old range |
| MigrationRun.CompleteRunExists | src/handles/keyspace-handle.cpp:413-627 | for any stores, any range and any listing order there is a guarded, complete run with the table first |
| MigrationRun.EarlyListMisplaces | src/handles/keyspace-handle.cpp:430-442 | when the list overtakes the table and the two ints are 0, a run that settles, loses nothing and sweeps under the new range alone misplaces manifests, whenever the source has one below 0x10 and the new range does not start at 0 |
| MigrationRun.EarlySweepPlacesIff | src/handles/keyspace-handle.cpp:413-627 | when the table comes last there is a complete run, and it has placed everything if and only if the range held before matches exactly the manifests that move |
| MigrationRun.EarlySweepMisplaces | src/handles/keyspace-handle.cpp:413-627 | in particular with two zeros that run misplaces, whenever the source has a moved manifest at 0x10 or above or an unmoved one below it |
| MigrationRun.ManagerRunExists | src/handles/keyspace-handle.cpp:413-627 | a delete into the manager can be run to the end under whatever range it holds, with exactly that outcome |
| Encoding.Encoder.PrependNumber | src/repo-command-parameter.cpp:125-130 | value, length and type prepended give one element; estimator and buffer count the same size |
| Encoding.Encoder.PrependHeader | src/repo-command-parameter.cpp:169-171 | the closing prepends turn the body into one element |
| Encoding.FindIsFirst | src/repo-command-parameter.cpp:203 | find returns the first element of the type, and nothing only if there is none |
| CommandParameter.DecodingIgnoresOrderAndExtras | src/repo-command-parameter.cpp:192-270 | a list with the same elements of known types, in any order and among any others, decodes to the same fields |
| CommandParameter.WireForm | src/repo-command-parameter.cpp:114-172 | the wire holds exactly the fields that are set, under their type numbers, in their order, in one block of type 201 |
| CommandParameter.DecodesIff | src/repo-command-parameter.cpp:192-270 | decoding a list of sub-elements fails exactly on a number whose width is not 1, 2, 4 or 8 |
| CommandParameter.PermutationsDecodeAlike | src/repo-command-parameter.cpp:192-270 | in particular every permutation of an encoding mixed with unknown elements |
| CommandParameter.RoundTripIff | src/repo-command-parameter.cpp:114-270 | for every subset of fields and all values, the encoding is one block and decodes to the fields if and only if the whole-block fields carry their own types |
| CommandParameter.DecodeIntoUsedIff | src/repo-command-parameter.cpp:192-270 | decoding an encoding into any object restores the fields if and only if that object lacked every field that was not encoded |
| CommandParameter.WireDecodingIgnoresOrderAndExtras | src/repo-command-parameter.cpp:192-270 | one block that holds the same known elements in any order among any others decodes to the same fields |
| CommandParameter.CachedWireIsCoherent | src/repo-command-parameter.cpp:30-112 | after any setters and encodings on a new object, the returned wire is the encoding of the fields |
| CommandParameter.LastSetterCounts | src/repo-command-parameter.cpp:30-112 | after any setters and encodings each field has the value of its last setter, or the one it started with |
| CommandParameter.RepoCommandParameter.constructor | src/repo-command-parameter.hpp:70-93 | a new object has no fields and no wire |
| CommandParameter.RepoCommandParameter.Set | src/repo-command-parameter.cpp:30-112 | each of the nine setters changes its field and drops the wire |
| CommandParameter.RepoCommandParameter.WireEncodeInto | src/repo-command-parameter.cpp:114-172 | estimator and buffer pass return the exact length, and the buffer holds the encoding in front of what it held |
| CommandParameter.RepoCommandParameter.WireEncode | src/repo-command-parameter.cpp:176-190 | returns and keeps the cached wire, or rebuilds it |
| CommandParameter.RepoCommandParameter.WireDecode | src/repo-command-parameter.cpp:192-270 | the fields found replace the old ones; malformed values, wrong type and bad numbers throw |
| CommandResponse.BodyIsShort | src/repo-command-response.cpp:132-187 | every response fits its length field |
| CommandResponse.DecodingIgnoresOrderAndExtras | src/repo-command-response.cpp:189-251 | order and unknown elements do not matter, and a list without status code is refused |
| CommandResponse.WireForm | src/repo-command-response.cpp:132-187 | the wire holds exactly the fields that are set, under their type numbers, in their order, in one block of type 207 |
| CommandResponse.DecodesIff | src/repo-command-response.cpp:189-251 | decoding a list of sub-elements fails exactly without a status code or on a number whose width is not 1, 2, 4 or 8 |
| CommandResponse.WireDecodingIgnoresOrderAndExtras | src/repo-command-response.cpp:189-251 | the same for one received block |
| CommandResponse.PermutationsDecodeAlike | src/repo-command-response.cpp:189-251 | every permutation of an encoding mixed with unknown elements decodes to the encoded fields |
| CommandResponse.RoundTripIff | src/repo-command-response.cpp:115-251 | the encoding is one block and decodes to the encoded fields if and only if there is a status code |
| CommandResponse.EncodeIsInjective | src/repo-command-response.cpp:132-187 | different responses have different wires |
| CommandResponse.CachedWireIsStaleOnlyInStatusCode | src/repo-command-response.cpp:24-129 | after any setters and encodings the wire is right in every field but the status code, which is the one of the last rebuild; the wire is fully right if and only if no other code was set since |
| CommandResponse.LastSetterCounts | src/repo-command-response.cpp:24-107 | after any setters and encodings each field has the value of its last setter, or the one it started with |
| CommandResponse.StatusCodeSticksOnTheWire | src/repo-command-response.cpp:69-77 | a response that was encoded once decodes to its old code whatever codes are set afterwards |
| CommandResponse.RepoCommandResponse.Set | src/repo-command-response.cpp:24-107 | the six setters; all but setCode drop the wire |
| CommandResponse.RepoCommandResponse.PrependFields | src/repo-command-response.cpp:139-182 | all fields are prepended in front of what was there; without a status code it throws and leaves the later fields behind |
| CommandResponse.RepoCommandResponse.WireEncode | src/repo-command-response.cpp:115-129 | returns and keeps the cached wire, or rebuilds it with the present status code, or throws |
| CommandResponse.RepoCommandResponse.WireDecode | src/repo-command-response.cpp:189-251 | the result does not depend on the object's earlier state; all error cases |
| FileProducer.ReadPlace | lib/difs.cpp:763-769 | counting from the end of the file, round n reads exactly the segment numbered n below the last |
| FileProducer.ProducedContentsIff | lib/difs.cpp:749-794 | the segments put together are the file if and only if its size is no multiple of the block size, or it is empty |
| FileProducer.CountsAgreeIff | lib/difs.cpp:844-846 | segment count and announced end block + 1 agree exactly then; every segment's FinalBlockId is the count less one and its name carries its index |
| FileProducer.ProducedIsValid | lib/difs.cpp:776-787 | every segment is signed over its successor's signature, the last over none, segment 0 with the identity |
| FileProducer.HashChainCommitment | lib/difs.cpp:759-789 | with a binding signature, the first signature determines number, names, contents and signatures of all segments |
| FileProducer.DownloadIsTheUpload | lib/difs.cpp:759-789 | a verified chain that starts with the uploader's first signature has the uploaded contents |
| FileProducer.Producer.PutFilePrepareNextData | lib/difs.cpp:749-794 | the backward loop builds exactly the chain, or nothing when the first read is empty, and counts what it built |
| FileProducer.Producer.ReadBackwards | lib/difs.cpp:763-769 | seek and read deliver the bytes of the right segment |
| FileProducer.Producer.OnPutFileInterest | lib/difs.cpp:546-580 | a segment number below the count gets that segment; the other replies case by case, with the access to an empty vector as one of them |
| Consumers.InterestsExpressed | lib/consumer.cpp:6-25 | a run with N requested segments expresses N Interests per round, one round more for each of the first three failures, and at most 4N |
| Consumers.RequestsAreTheListed | lib/consumer.cpp:6-25 | one round asks each repo for a segment as often as the manifest lists it with a range that has it, under the manifest's name, and for nothing else |
| Consumers.EveryRoundAsksForAll | lib/consumer.cpp:6-80 | in any run each of these Interests is expressed once per round: the first fetch and one for each of the first three failures |
| Consumers.AskedForIff | lib/consumer.cpp:6-25 | in any run a repo is asked for a segment if and only if it is listed with it |
| Consumers.FullIff | lib/consumer.cpp:39-41 | the size test holds exactly when all segments have arrived |
| Consumers.DeliveryWrites | lib/consumer.cpp:27-52 | one delivery appends the whole file if the set is then complete, and nothing otherwise |
| Consumers.OutputIsWholeCopies | lib/consumer.cpp:27-80 | in any order, with any duplicates and failures, the output is a whole number of copies of the file, one per delivery from completion on |
| Consumers.NoCopyBeforeCompletion | lib/consumer.cpp:39-47 | no copy before completion, one at completion |
| Consumers.PutThenReassemble | lib/consumer.cpp:27-52 | the segments produced from a file, delivered in any order with any duplicates, give exactly the file |
| Consumers.Consumer.Fetch | lib/consumer.cpp:6-25 | the nested loops express one round of Interests, whose content Consumers.RequestsAreTheListed gives |
| Consumers.Consumer.OnDataCommandResponse | lib/consumer.cpp:27-52 | keeps the first content of a segment, and writes all in key order when the set is complete |
| Consumers.Consumer.WriteAll | lib/consumer.cpp:42-46 | walks the map in ascending key order and counts segments and bytes |
| Consumers.Consumer.OnDataCommandTimeout | lib/consumer.cpp:54-66 | the first three failures repeat the whole fetch |
| Consumers.Consumer.OnDataCommandNack | lib/consumer.cpp:68-80 | the same for a Nack, with the same counter |
| DeleteProcess.ReportedCountIff | src/handles/delete-handle.cpp:267-277 | the reported number is the number of removed packets if and only if every segment of the range was present |
| DeleteProcess.RunKeepsInv | src/handles/delete-handle.cpp:161-243 | every execution, answer and failure keeps the protocol invariant |
| DeleteProcess.RequestsAreConserved | src/handles/delete-handle.cpp:190-217 | at every step, requests sent plus repos remaining are the manifest's list, so no run sends more requests than the list is long |
| DeleteProcess.ErasedOnlyWhenAllAnswered | src/handles/delete-handle.cpp:229-242 | the manifest is erased only after every listed repo was asked, has executed and has answered with a code up to 400 |
| DeleteProcess.FinishedRunRemovesExactlyTheList | src/handles/delete-handle.cpp:161-278 | a packet that the manifest does not list for a node is never touched there, and once the manifest is gone a name is missing if and only if it was before or some repo of the manifest has that node and a range with that segment |
| DeleteProcess.FailureIsFinal | src/handles/delete-handle.cpp:132-138 | one refused or unanswered request leaves manifest and process entry in place for ever |
| DeleteProcess.AnsweredOnce | src/handles/delete-handle.cpp:132-138 | the command is answered once: 405 after the first failure, 200 (403 without a process id) when the manifest has been erased |
| DeleteProcess.UnknownManifestIsRefused | src/handles/delete-handle.cpp:160-187 | an unknown manifest is answered 405 and an unreadable one not at all; nothing is asked or erased and the process entry stays |
| DeleteProcess.RefusedIff | src/handles/delete-handle.cpp:219-243 | exactly codes above 400 are refused with 405 and erase nothing, as does a timeout; others erase process and manifest once no repo is left |
| DeleteProcess.EndlessIsNeverErased | src/handles/delete-handle.cpp:189-278 | a manifest that lists a repo with end -1 is never erased |
| DeleteProcess.CooperationDeletesTheFile | src/handles/delete-handle.cpp:161-278 | when every repo cooperates, as many rounds as there are repos delete the file |
| DeleteProcess.InsertKeepsNoEmptyStorages | src/manifest/manifest.cpp:132-147 | no stored manifest has an empty repo list to take the front of |
| DeleteProcess.DeleteHandle.HandleDeleteCommand | src/handles/delete-handle.cpp:82-113 | the command goes to the node that the name's key routes to |
| DeleteProcess.DeleteHandle.OnTimeout | src/handles/delete-handle.cpp:132-138 | answers 405 and keeps, or creates, the process entry |
| DeleteProcess.DeleteHandle.HandleOnlyDeleteManifestCommand | src/handles/delete-handle.cpp:140-158 | removes a readable manifest and no data and answers with an empty reply; 405 for an unknown one; an unreadable one throws |
| DeleteProcess.DeleteHandle.HandleDeleteManifestCommand | src/handles/delete-handle.cpp:160-187 | starts the process over the manifest's repos, or answers 405 and leaves an entry behind |
| DeleteProcess.DeleteHandle.DeleteData | src/handles/delete-handle.cpp:189-217 | takes the first outstanding repo and asks it for its range |
| DeleteProcess.DeleteHandle.OnDeleteDataCommandResponse | src/handles/delete-handle.cpp:219-243 | failure keeps everything; success asks the next repo, or erases manifest and process after the last |
| DeleteProcess.DeleteHandle.HandleDeleteDataCommand | src/handles/delete-handle.cpp:245-278 | removes exactly the range, counts attempts; the error replies; 403 after deletion when the process id is missing |
| InsertProcess.BeginsWith100Then300 | src/handles/write-handle.cpp:317-364 | the first reply carries 100 and the range; the process then holds 300 while its cached wire still says 100 |
| InsertProcess.StatusMachine | src/handles/write-handle.cpp:258-305 | over every interleaving the code is 300 or the final one, and once final it never changes |
| InsertProcess.CodesByKind | src/handles/write-handle.cpp:276-304 | 200 only with an end block, 405 only without |
| InsertProcess.SingleInsertNeverCompletes | src/handles/write-handle.cpp:182-209 | an insert of a single name never reaches 200 |
| InsertProcess.ExpiredStaysIff | src/handles/write-handle.cpp:443-456 | an expired deadline stays as it is if and only if no manifest of a single insert arrives; checks and segments never extend it and set 405 |
| InsertProcess.TimedOutIff | src/handles/write-handle.cpp:258-456 | after any run without an end block the deadline is the one the events give, and the code is 405 if and only if a segment or check came later than the deadline held just before it, 300 otherwise |
| InsertProcess.InsertTimesOutIff | src/handles/write-handle.cpp:317-401 | so for a segmented insert from ten seconds after its begin on, and for a single one from the clock's epoch on |
| InsertProcess.FetchingEndsIff | src/handles/write-handle.cpp:269-304 | a segment stops the fetcher if and only if it comes after the deadline, or the counter reaches the size of the range, both in 64 bits |
| InsertProcess.NegativeReplyDecodes | src/handles/write-handle.cpp:459-464 | a negative reply decodes to its code and no other field |
| InsertProcess.AfterLastSlashIff | src/handles/write-handle.cpp:156-157 | the component has no slash, and is the whole text or what follows one |
| InsertProcess.SingleInsertRevives | src/handles/write-handle.cpp:222-231 | the deadline of a single insert can be set after it was found expired |
| InsertProcess.CompletionIsVisible | src/handles/write-handle.cpp:269-304 | the segment that completes a range drops the cached wire, so the next reply says 200 |
| InsertProcess.CheckIsCurrentIff | src/handles/write-handle.cpp:366-401 | a check sends the present code if and only if nothing is cached or the cached reply was built with that code |
| InsertProcess.WireDroppedIff | src/handles/write-handle.cpp:269-272 | the cached reply is gone if and only if a segment has been inserted since the last check |
| InsertProcess.TimeoutIsReportedIff | src/handles/write-handle.cpp:392-397 | after any run, a check that finds the deadline expired sets 405, and reports it if and only if a segment was inserted since the last check or 405 had been sent before |
| InsertProcess.CompleteIffEnoughSuccesses | src/handles/write-handle.cpp:269-304 | in any run, with duplicates and strays, the counter is the number of successful insertions, and the status is 200 if and only if they are as many as the range has segments |
| InsertProcess.PrematureIff | src/handles/write-handle.cpp:269-304 | completion with a segment missing happens only when something was inserted twice or lies outside the range, and completion never comes late |
| InsertProcess.CompleteIffAllInserted | src/handles/write-handle.cpp:258-305 | when no segment is delivered twice, 200 means, in both directions, that every segment was inserted, and every one is in the store |
| InsertProcess.DuplicatesCompleteTooEarly | src/handles/write-handle.cpp:270-272 | one packet delivered as often as the range has segments completes it, for every range, with no other segment in the store |
| InsertProcess.WholeIdSpaceCompletesAtOnce | src/handles/write-handle.cpp:296-297 | the 64-bit segment count of the whole id space is zero |
| InsertProcess.WriteHandle.OnFindResponse | src/handles/write-handle.cpp:105-125 | an existing manifest is refused with 403; otherwise the block ids decide the kind of insert |
| InsertProcess.WriteHandle.ProcessSegmentedInsertCommand | src/handles/write-handle.cpp:317-364 | start above end is refused; otherwise the new process, the first reply and the deadline |
| InsertProcess.WriteHandle.OnDataValidated | src/handles/write-handle.cpp:135-173 | announces the manifest once, to the owner of its key, and starts the deadline |
| InsertProcess.WriteHandle.SegInit | src/handles/write-handle.cpp:211-256 | without an end block the deadline is set |
| InsertProcess.WriteHandle.OnSegmentData | src/handles/write-handle.cpp:258-305 | the insertion, the counter, the two tests and the fetcher's stop, equal to the value-level step; without an end block it stops if and only if the deadline has passed |
| InsertProcess.WriteHandle.HandleCheckCommand | src/handles/write-handle.cpp:366-401 | an unknown process gets 404; otherwise the deadline is looked at and the cached wire is sent |
| InsertProcess.WriteHandle.HandleInfoCommand | src/handles/write-handle.cpp:403-428 | the manifest that the process announced, as JSON; the null pointer before that is a case of its own |
| PrefixCounts.SamePrefixIff | src/handles/read-handle.cpp:166-186 | insertion and deletion compute the same prefix exactly when the subset length is between one and the name's length, or both are zero |
| PrefixCounts.PrefixIff | src/handles/read-handle.cpp:181-186 | the prefix of a usable name is the name without its last components, as many as the subset length |
| PrefixCounts.CountsAreBalancesIff | src/handles/read-handle.cpp:166-212 | for any events, a prefix is registered exactly while its count is positive, and the count is insertions minus deletions if and only if deletions were always covered |
| PrefixCounts.HeldIsInsertedMinusDeleted | src/handles/read-handle.cpp:166-212 | in a legal history the held names are the multiset of inserted ones less the deleted ones |
| PrefixCounts.CountsAreHeldNames | src/handles/read-handle.cpp:166-212 | then each prefix's count is the number of held names under it |
| PrefixCounts.ZeroLengthLeaks | src/handles/read-handle.cpp:166-186 | with length 0 a deleted name stays counted |
| PrefixCounts.ReadHandle.OnDataInserted | src/handles/read-handle.cpp:181-212 | one more under the name's prefix |
| PrefixCounts.ReadHandle.OnDataDeleted | src/handles/read-handle.cpp:166-179 | one less under the full name's prefix, which is dropped at zero |
| ManifestHandles.CreatedOnce | src/handles/manifest-handle.cpp:86-157 | a create command readies its process for one reply; repeated after the reply it changes nothing |
| ManifestHandles.OnlyTheFirstReplyIsStored | src/handles/manifest-handle.cpp:135-157 | of any replies for one process exactly the first that parses is stored |
| ManifestHandles.PublishedManifestIsFound | src/handles/manifest-handle.cpp:135-203 | what a writer announces is found later, unchanged, under the key of the inserted name's last component, at the node that owns that key |
| ManifestHandles.FoundUnderWholeNameIff | src/handles/read-handle.cpp:88-89 | a look-up under the key of the whole name, as get and delete make it, finds that manifest if and only if the two keys are equal, and otherwise what was there before |
| ManifestHandles.ManifestHandle.HandleCreateCommand | src/handles/manifest-handle.cpp:86-125 | remembers the process and asks the writer for the manifest |
| ManifestHandles.ManifestHandle.OnDataValidated | src/handles/manifest-handle.cpp:135-157 | stores the manifest once per process |
| ManifestHandles.ManifestHandle.HandleFindCommand | src/handles/manifest-handle.cpp:182-203 | the stored manifest, parsed and printed again, or an empty reply |

## Left out

- Sockets, Face, Interest filters, the dispatcher and the scheduler: messages, segments and clock readings are steps that may come in any order.
- `Block::fromBuffer`, `Block::parse`, `Block::find` and the number encodings are library code that is not part of this model; they are defined from the NDN Packet Format Specification, which makes the shortest VAR-NUMBER form mandatory.
- Signing, SHA-1 and the implicit digest are parameters; a signature is assumed to be binding only where a lemma says so, and the validators accept what they are given.
- JSON is a record of its fields; text, escaping and the parsing of URIs into names are left out. A hexadecimal number is the number it spells.
- The file system and MongoDB back ends: an abstract map from names to packets and from keys to JSON, with a parameter for refused insertions. Reads by prefix or digest are left out.
- Uninitialised fields (retry counters, flags of a default-constructed response) are taken as zero or absent. The uninitialised integers of the delete-node command and of a keyspace node are parameters.
- 32-bit truncation of segment counts, of map keys in the consumer and of the manifest's block ids in the producer and consumer: their numbers are unbounded, and files are assumed to have fewer than 2^31 segments. Likewise the 32-bit counters of the consumer and of the prefix counts.
- A Content block nested in a packet's content, MetaInfo other than FinalBlockId, forwarding hints and Interest lifetimes; names and forwarding hints inside commands are their undecoded values.
- The state of an object after a decoder has thrown is not stated, apart from its cached wire.
- Config files, command-line tools, logging, the info handle, the field validators and the `RepoCommand` classes would only add single-branch members.
- `ReadHandle` apart from its counters, `HCSegmentFetcher`, and the client's polling of insert checks in `lib/difs.cpp`.
- Manifests that are inserted while a migration is running, a second add-node or del-node before it has finished, tables of earlier versions and coordinations of earlier commands that arrive again during it, and collisions of random process ids with ids in use.
- The source answers add-node and del-node on every node (src/handles/keyspace-handle.cpp:80-88); a member that receives one would publish its own "v0". Operators are taken to address the manager only, and VersionAgreement.VersionAgreement depends on it.
- DeleteProcess.DeleteHandle.HandleDeleteDataCommand: asks that the end block is not 2^64 - 1, because the source's loop never ends there; in the protocol such a request is never answered, and its deletions are not modelled.
- InsertProcess.CompleteIffAllInserted: is about ranges whose size fits 64 bits and fetchers that deliver no segment twice; InsertProcess.WholeIdSpaceCompletesAtOnce and InsertProcess.PrematureIff say what happens otherwise.
- MigrationPlacement.AddPlacesIff: is about runs in which each only-delete is handled after that manifest has been stored, and each list after the table has been installed; nothing in the source enforces either. Migration.DeleteLosesIff says what happens without the first, MigrationPlacement.PlacementIff what happens without the second.
- MigrationPlacement.DeletePlacesIff: the same, for a receiver that is a member and fetches the new table; the manager is the subject of MigrationPlacement.DeleteIntoManagerPlacesIff.
- Routing.SelectKeys: ends after the largest 32-bit number, where the source's loop variable overflows; only a node whose uninitialised range happens to end there could reach that.
- DeleteProcess.ErasedOnlyWhenAllAnswered: is about one process that nothing else interferes with; a second delete of the same file at the same time has a process of its own and can erase the manifest first. Likewise insert runs do not contain deletions of the packets they insert.
- InsertProcess.CompleteIffEnoughSuccesses: stops short of 2^64 successful insertions, where the counter wraps.
- Consumers.PutThenReassemble: speaks of the interface between producer and consumer; that the repositories serve the inserted segments unchanged is not modelled.
