# A verified model of the radio server's hard logic

The server keeps a MeshCore radio and a database in step: it shares one radio between many coroutines, caches which
channel sits in which radio slot, chooses and loads contacts, parses packets and routes, deduplicates what it hears,
and keeps an MQTT client connected while settings change under it. This project models those parts in Dafny and
proves what they promise, over every input or every run.

`dafny verify dfyconfig.toml` checks everything.

| file | what it models |
|---|---|
| `ChannelSlots.dfy` | the channel-slot cache, its specification as a history-based LRU, a channel send, the audit |
| `RadioSession.dfy` | operations, disconnects, pauses and reconnects as interleaved tasks |
| `ContactSelection.dfy`, `ContactReconcile.dfy` | which contacts the radio should carry, and how its table is driven there |
| `PathCodec.dfy` | packet framing, the packed path byte, hop chunks, the part of a packet its dedup key covers |
| `ContactRoutes.dfy`, `ContactTable.dfy` | route normalisation, explicit and decoded routes, the route columns of the contacts table |
| `RawPackets.dfy`, `KeysetScan.dfy` | the deduplicating packet store, and the paginated scan of undecrypted packets |
| `AdvertPaths.dfy`, `Promotion.dfy` | the top-N table of advert paths, and the merging of placeholder contacts |
| `MqttLoop.dfy` | the MQTT connection loop |
| `Migration44.dfy` | the collapse of duplicate incoming direct messages |
| `LppKeys.dfy`, `SpiContacts.dfy`, `Signing.dfy`, `ChannelText.dfy` | telemetry keys, the SPI name index, signing and clamping, "sender: text" |
| `Common.dfy`, `FirstOfKey.dfy` | shared vocabulary: options, pigeonhole, first-wins deduplication |

## How the models are built

* What the source updates in place is a class with the source's fields and one method per source method. Each method
  is tied to a specification function or to a ghost history, and the promises are proved about those.
* The radio session and the MQTT loop are state machines. Only an `await` lets another coroutine run, so the code
  between two awaits is one step and the place a coroutine is suspended at is its program counter. Failures and cancellations are
  steps too.
* SQL tables are maps and sequences, one `db.tx()` is one atomic step. Hash functions, the curve and point encoding
  are parameters. The ratios 0.80 and 0.95 are exact rationals.

## What the code does not keep

Ten properties one would expect are false of the code. The model keeps the code as it is; each failure has an example
and, beside it, the exact condition under which the code does keep the property.

* Route normalisation is idempotent except on the inputs `Unstable` describes (`NormalizeIdempotent`, `UnstableExample`).
* An explicit route of 64 one-byte hops passes the size check but is read back as a direct route
  (`ExplicitRouteReadsBack`, `SixtyFourHopsAccepted`).
* A three-byte hop with two blanks in the middle passes the hex check, so an accepted route need not be hex
  (`GappedHopAccepted`); `AcceptedHops` says that this is the only way.
* A pause leaves the backend in place when its take-down raises or is cancelled (`TeardownFailureLeavesBackend`), and
  only then, until a later teardown succeeds (`PausedMeansNoBackend`, `AbortedUntilTornDown`).
* A send cancelled while it overwrites an evicted key's slot leaves that key cached, because only `Exception` is caught
  there; the next message for it then goes out on another channel's slot (`CancelledEvictionExample`). Over any run,
  `MisdirectedExactlyWhen` says which messages these are, and `SafeSinceAudit` that an audit or a reset ends the danger.
* The reconciliation's documentation says that the desired set is read again before each deletion. The second read is
  made when the key is queued, so a key desired again before its batch is full is still removed
  (`RemovedExactlyWhenTwiceUnwanted`, `DesiredAgainIsStillRemoved`).
* Reconciliation does not take a removed contact out of the library's cache, as the offload does
  (app/radio_sync.py:357-375), and asks that cache before each addition. A removed contact is not restored when it is
  desired again (`RemovedIsNotRestored`, `DesiredAgainIsLost`), and blocks a wanted contact of the same prefix
  (`StaleCacheBlocks`). `FinalContacts`, `DesiredButAbsent` and `StableReconciliation` are exact.
* On SPI, reconciliation removes nothing: it passes the snapshot's dictionary, where the backend expects an object with
  a `public_key` (app/backends/spi_backend.py:377-388). `StableOnSpi` says when the target
  is reached all the same; `SpiRemovesNothing` is an example.
* A community publisher parked for lack of keys is not woken when keys arrive (`KeysArriveUnnoticed`); this is the only
  wake-up missed, only its timeout recovers it (`IdleMissesOnlyKeys`, `OnlyTheTimeoutRecovers`).
* The decoder and the sync path split channel text alike exactly when it has no NUL (`SplittersAgree`,
  `SplittersDisagree`).

## Model

| member | source | states |
|---|---|---|
| ChannelSlots.LoadRefines | app/radio.py:360-375 | recording a load turns the maps prescribed by a history into those prescribed by the history with that load: the key and the slot's former owner lose their places, the key comes last, the maps stay inverse |
| ChannelSlots.UseRefines | app/radio.py:377-387 | recording a use moves a resident key to the end and changes nothing for any other key |
| ChannelSlots.DropRefines | app/radio.py:389-396 | invalidating a key removes exactly that key and its slot claim |
| ChannelSlots.OrderIsUnique | app/radio.py:334-358 | recency of last load or use leaves only one possible order of the cache |
| ChannelSlots.RefinementIsUnique | app/radio.py:298-411 | a history determines both maps completely: the cache is the history-based LRU and nothing else |
| ChannelSlots.ResidentsCount | app/radio.py:352-355 | the number of cached keys is the number of claimed slots |
| ChannelSlots.FreeOrFull | app/radio.py:402-411 | pigeonhole: below capacity some slot is free, at capacity every slot is claimed |
| ChannelSlots.StaleAfterLoad | app/services/message_send.py:223-249 | writing a slot and recording the load makes no cached pair stale, and ends those of the keys it displaces |
| ChannelSlots.StaleElsewhere | app/services/message_send.py:228-248 | a change of one slot changes the truth of no pair but that of the key claiming it |
| ChannelSlots.RadioManager.Capacity | app/radio.py:323-328 | the capacity is never below one |
| ChannelSlots.RadioManager.ReuseExactlyWhen | app/radio.py:315-321 | never over TCP and never when switched off, else always; before a transport is up the configured kind decides; without reuse nothing is cached |
| ChannelSlots.RadioManager.ResetChannelSendCache | app/radio.py:298-301 | a reset is the history event that forgets every key |
| ChannelSlots.RadioManager.FindFirstFreeChannelSlot | app/radio.py:402-411 | below capacity it yields an unclaimed slot below capacity, the preferred one if usable, else the lowest free one; the final fall-through is reached only by a full cache |
| ChannelSlots.RadioManager.PlanChannelSendSlot | app/radio.py:334-358 | a resident key keeps its slot without a write; a new key evicts iff every slot is claimed, and then the key whose last load or use is strictly the oldest |
| ChannelSlots.RadioManager.NoteChannelSlotLoaded | app/radio.py:360-375 | the maps follow the history extended by the load; slots stay below capacity |
| ChannelSlots.RadioManager.NoteChannelSlotUsed | app/radio.py:377-387 | the maps follow the history extended by the use |
| ChannelSlots.RadioManager.InvalidateCachedChannelSlot | app/radio.py:389-396 | the maps follow the history extended by the drop |
| ChannelSlots.RadioManager.ConfigureSlot | app/services/message_send.py:205-249 | from any cache, true or not: after a write the key owns its slot, after a failed one the evicted key is forgotten, and stale pairs only go; after a cancelled one the evicted pair is stale iff its slot no longer holds it, all others are as before |
| ChannelSlots.RadioManager.PrepareSlot | app/services/message_send.py:200-249 | planning and writing in one: a resident key costs nothing and changes nothing, a new key is ready iff the write succeeded, its slot then holds it and it is the freshest; it evicts iff all slots are taken, and then the strictly oldest key |
| ChannelSlots.RadioManager.RecordOutcome | app/services/message_send.py:254-270 | a send that went well makes its key the freshest, a refused one forgets exactly its key, silence changes nothing; no other key's slot or time of use changes |
| ChannelSlots.RadioManager.SendChannelMessage | app/services/message_send.py:200-271 | from any cache, true or not: the message goes out on a slot without its key iff the key was cached and its pair stale; the pairs stale afterwards are given exactly; a new key takes the slot of the oldest key iff all slots are taken, and no other key loses its slot or its time of use; a send that went well makes its key the freshest; a resident key costs no write |
| ChannelSlots.StaleStep | app/services/message_send.py:200-271 | a send, audit, reset or new session makes stale at most the pair of the key whose slot a cancelled write overwrote |
| ChannelSlots.MisdirectedExactlyWhen | app/services/message_send.py:200-271 | over every run of sends, audits, resets and new sessions a message is misdirected iff an earlier send was cancelled over its key's slot, left it without the key, and the key has stayed cached since without a later cancelled write restoring it |
| ChannelSlots.SafeSinceAudit | app/radio_sync.py:765-812 | no message is misdirected while no send has been cancelled over its key's slot since the last audit, reset or new session |
| ChannelSlots.RadioManager.AuditChannelSendCache | app/radio_sync.py:765-812 | it succeeds iff the radio and the channel table confirm every cached pair, else forgets them all; it always ends in agreement; under exclusive access only silence or a changed channel table fails it |
| ChannelSlots.CancelledEvictionExample | app/services/message_send.py:223-254 | three sends, two keys, one slot, the second write cancelled: the third message goes out on the other key's slot |
| ChannelSlots.LastSentIsNotEvictedNext | app/radio.py:352-387 | over two sends and a plan: while another key is cached, the key just sent is never the one evicted next |
| RadioSession.ActIsLawful | app/radio.py:185-290 | whatever a step of any task does, it takes only a free lock, gives back only its own, replaces the backend only while tearing it down under the lock or connecting to none, and leaves an unwanted transport only to a task that takes it down |
| RadioSession.LawfulKeepsInv | app/radio.py:648-744 | such a step by one task keeps the invariant of all tasks |
| RadioSession.RunKeepsInv | app/radio.py:185-744 | the invariant holds at every moment of every run of any number of tasks |
| RadioSession.OperationLockIsExclusive | app/radio.py:185-290 | in every run at most one task holds the operation lock, it is locked exactly while one does, no release finds it unlocked, and each task has released it as often as it took it but for the acquisition it holds |
| RadioSession.StepKeepsHeldBackend | app/radio.py:231-290 | a task that holds the lock before and after a step of any task works on the same backend |
| RadioSession.BackendStaysDuringOperation | app/radio.py:231-290 | from acquiring to releasing the lock, the backend is the one handed out, whatever others do |
| RadioSession.OperationOutcomes | app/radio.py:185-290 | a non-blocking request is refused iff the lock is held; an operation taking the free lock is refused iff there is no backend, else it holds the lock with that backend, stops auto fetch iff asked, restarts it iff it stopped it, keeping the lock, and releases |
| RadioSession.OperationEntersIffConnected | app/radio.py:253-281 | in every run an operation that gets the lock is let in iff there is a backend, and with that one |
| RadioSession.BodyRunsAsAsked | app/radio.py:272-290 | in every run a body runs with auto fetch stopped iff its request asked for it, and auto fetch is restarted on the way out only then |
| RadioSession.DisconnectOutcomes | app/radio.py:648-657 | pausing and disconnecting wait for nothing without a backend, and take the lock before touching the transport |
| RadioSession.TeardownOutcomes | app/radio.py:648-679 | a teardown that succeeds leaves neither backend nor lock, one that fails or is cancelled the backend without the lock; reconnecting goes on accordingly |
| RadioSession.ReconnectOutcomes | app/radio.py:681-744 | it returns at once iff no connection is wanted or there is one, takes down a transport only when it was not connected, opens one only where there is none, and keeps it iff it is still wanted |
| RadioSession.SomeTaskContinues | app/radio.py:185-744 | no deadlock: in every reachable state with a busy task, that task, or the holder of a lock it waits for directly or through that holder, can go on |
| RadioSession.AnythingCanFail | app/radio.py:648-744 | every teardown may raise, every connect fail, every busy task be cancelled |
| RadioSession.PausedMeansNoBackend | app/radio.py:475-483 | while no connection is desired and nothing is taking the transport down, there is no backend iff the transport has not survived an aborted take-down |
| RadioSession.AbortedUntilTornDown | app/radio.py:648-679 | only a pause or late disconnect that raises or is cancelled leaves the transport so, and exactly a successful teardown ends it |
| RadioSession.DesireIsTheOperators | app/radio.py:475-483 | only pause and resume change what is desired; while no connection is desired no reconnect gets past its lock |
| RadioSession.TeardownFailureLeavesBackend | app/radio.py:648-679 | a run in which a raising teardown leaves all tasks idle, the connection unwanted and the backend present |
| ContactSelection.EffectiveCapacity | app/radio_sync.py:256-262 | at least 1, never above a positive hardware or configured limit, and equal to the smaller of them |
| ContactSelection.LimitsOrdered | app/radio_sync.py:265-273 | 1 <= refill <= trigger <= capacity, refill < trigger iff the capacity is at least 3, and both are the whole numbers their roundings promise |
| ContactSelection.DedupPrefix | app/radio_sync.py:1167-1198 | offering more candidates never reorders or drops those selected |
| ContactSelection.Fill | app/radio_sync.py:1177-1187 | one bounded, deduplicating loop yields the first `stop` distinct keys of all that was offered |
| ContactSelection.LimitNeverStarves | app/radio_sync.py:1178-1191 | cutting a query at max_contacts rows never changes the selection: if rows were cut, the target is reached |
| ContactSelection.SelectForRadioSync | app/radio_sync.py:1158-1208 | the three loops over limited queries compute the reference selection over the unlimited ones: distinct keys, never more than the hardware holds or than configured |
| ContactSelection.SelectionIsBoundedAndMaximal | app/radio_sync.py:1158-1208 | distinct keys, at most capacity, above the refill target only favourites, and the target is reached unless every candidate is in |
| ContactSelection.FavouritesFirst | app/radio_sync.py:1166-1175 | favourites come first in order, all of them when they fit the capacity |
| ContactSelection.SourcesInOrder | app/radio_sync.py:1166-1199 | a selected key from beyond the favourites means that all favourites are in, one from adverts alone that all conversations are in too |
| ContactSelection.FavouritesInOrder | app/radio_sync.py:1166-1175 | when a favourite is selected, so are all earlier ones |
| ContactSelection.ConversationsInOrder | app/radio_sync.py:1177-1187 | when a conversation is selected for its own sake, so are all more recent ones |
| ContactSelection.AdvertsInOrder | app/radio_sync.py:1189-1199 | when an advert is selected for its own sake, so are all more recent ones |
| ContactSelection.FillDoesNotRetrigger | app/radio_sync.py:276-306 | loading the selection triggers another full sync iff the favourites alone do |
| ContactReconcile.RemoveBatch | app/radio_sync.py:1477-1489 | one command per queued key in order, with the effect it has on either backend; exactly the acknowledged ones leave the list of what is on the radio |
| ContactReconcile.AddBatch | app/radio_sync.py:1516-1527 | one addition attempt per queued contact in order, skipping prefixes the backend's cache knows |
| ContactReconcile.RemoveUnwanted | app/radio_sync.py:1457-1503 | batching changes nothing: the commands sent are one removal per unwanted key of the snapshot, in order, the last partial batch included |
| ContactReconcile.AddMissing | app/radio_sync.py:1505-1536 | likewise one addition per missing full key, in order |
| ContactReconcile.Reconcile | app/radio_sync.py:1457-1536 | on either backend, for any cache, any changing desired set and any replies, the batched job equals the unbatched reference |
| ContactReconcile.RemovedExactlyWhenTwiceUnwanted | app/radio_sync.py:1461-1475 | a key is removed iff the two reads made at its turn both lack it |
| ContactReconcile.DesiredAgainIsStillRemoved | app/radio_sync.py:1461-1488 | reads after a key is queued do not save it |
| ContactReconcile.Removals | app/radio_sync.py:1477-1503 | removals leave the library's cache alone; on SPI they leave the contacts alone too, and are acknowledged |
| ContactReconcile.ListStaysExact | app/radio_sync.py:1477-1503 | whatever the radio refuses, the job's list of what is on it stays exact behind the library |
| ContactReconcile.Additions | app/radio_sync.py:1505-1536 | of the keys offered exactly those whose prefix the cache does not know come onto the radio; on SPI also only the first of each prefix |
| ContactReconcile.FinalContacts | app/radio_sync.py:1457-1536 | exact snapshot, accepted commands, any cache and any changing desired set: the radio ends with what was not removed (on SPI with all there was) and the missing keys whose prefix gets through the cache |
| ContactReconcile.DesiredButAbsent | app/radio_sync.py:1505-1536 | a key of the last read ends off the radio iff it was not kept and is no full key or one whose prefix the library's cache knows |
| ContactReconcile.AddedExactly | app/radio_sync.py:1508-1536 | a wanted contact that is not on the radio is added iff its key has at least 64 digits and no cached key begins with its first 12 |
| ContactReconcile.RemovedIsNotRestored | app/radio_sync.py:1477-1536 | a key removed and desired again by the last read is not put back |
| ContactReconcile.DesiredAgainIsLost | app/radio_sync.py:1461-1536 | that happens: a contact unwanted for two reads only ends off the radio |
| ContactReconcile.StableReconciliation | app/radio_sync.py:1457-1536 | exact snapshot, stable desired set, accepted commands, any library cache: the contacts end inside the desired ones, and equal to them iff the cache knows no prefix of a key to be added, removed contacts included |
| ContactReconcile.StableOnSpi | app/radio_sync.py:1457-1536 | on SPI nothing leaves; the target is reached iff nothing had to leave and each key to be added gets through the cache |
| ContactReconcile.SpiRemovesNothing | app/backends/spi_backend.py:377-388 | one unwanted contact on SPI stays, although its removal is acknowledged |
| ContactReconcile.StaleCacheBlocks | app/radio_sync.py:1477-1536 | a removed contact keeps the wanted one of its prefix off the radio, although no two wanted keys share a prefix |
| ContactReconcile.NeverOverfull | app/radio_sync.py:1457-1536 | at no step does a radio behind the library hold more contacts than at first or than are desired |
| PathCodec.PathByteFields | app/path_utils.py:35-49 | exactly the bytes below 192 decode, to 1 to 3 bytes per hop and at most 63 hops, and the byte is 64 times the mode plus the hops |
| PathCodec.FramingExactly | app/path_utils.py:75-127 | in plain numbers: route types 1 and 2 put the path byte at offset 1, types 0 and 3 at offset 5; a packet is accepted iff that byte is below 192, the path has at most 64 bytes and a byte follows it; path and payload are then the bytes there |
| PathCodec.ParsePacketEnvelope | app/path_utils.py:75-127 | moving an offset through the packet finds the fields at those positions |
| PathCodec.ParsePrinted | app/path_utils.py:75-127 | parsing a packet printed from well-formed fields returns those fields |
| PathCodec.PrintParsed | app/path_utils.py:75-127 | every accepted packet is the print of its own well-formed fields |
| PathCodec.RerouteKeepsIdentity | app/decoder.py:114-130 | changing only the route keeps payload type, payload and what the dedup key covers |
| PathCodec.HashedExactly | app/repository/raw_packets.py:27-33 | two packets are hashed alike iff they parse and have equal payloads, or do not parse and are equal, or one's payload is the other's bytes |
| PathCodec.HexReads | app/path_utils.py:130-142 | a path's hex reads back as its bytes |
| PathCodec.ChunksJoin | app/path_utils.py:142-142 | equal chunks are as many as they should be and join back to the text |
| PathCodec.ChunkAt | app/path_utils.py:142-142 | the i-th chunk is the text at i chunk widths |
| PathCodec.SplitParsedPath | app/path_utils.py:130-142 | for every accepted packet there is one chunk per hop, each that hop's hex, joining back to the path: the fallback is never taken |
| PathCodec.SplitExactly | app/path_utils.py:130-142 | any path splits into parts that join back to it: into as many as there are hops when some even width fits, else into single bytes |
| ContactRoutes.NormalizeContactRoute | app/path_utils.py:154-205 | the normaliser's rewriting is unpacking a stray packed byte and then fitting path and length to each other |
| ContactRoutes.FitLength | app/path_utils.py:191-203 | fitting shortens the length only for a shorter path of whole hops, and then to that number of hops |
| ContactRoutes.FitPath | app/path_utils.py:191-203 | fitting keeps a prefix of the path, cut only when longer than its hops; path and hops then agree unless the path stops short within a hop |
| ContactRoutes.FitTwice | app/path_utils.py:191-203 | fitting twice is fitting once |
| ContactRoutes.NormalizeIdempotent | app/path_utils.py:154-205 | normalising again changes nothing iff the input is not Unstable |
| ContactRoutes.UnstableExample | app/path_utils.py:154-205 | 200 one-byte hops announced and 100 present: a second pass changes the route |
| ContactRoutes.SignedAndUnsignedAgree | app/path_utils.py:161-183 | packed bytes of modes 1 and 2 mean the same stored signed or unsigned, and what decode_path_byte reads in them |
| ContactRoutes.FloodExactly | app/path_utils.py:176-189 | a route reads as flood iff its length is missing, -1 or a stray byte 0xFF |
| ContactRoutes.StrayLengthReadsAs | app/path_utils.py:176-183 | a length outside [-1, 63] reads as the hops and mode of its low byte, or in the reserved mode as itself |
| ContactRoutes.UnknownModeIsOneByte | app/path_utils.py:190-192 | a missing or unknown mode means one byte per hop |
| ContactRoutes.ExactRouteReadsBack | app/path_utils.py:154-205 | a route whose path holds exactly its hops survives iff its hop count fits six bits |
| ContactRoutes.ExplicitRouteReadsBack | app/path_utils.py:225-247 | an accepted explicit route has the 1 to 64 hops of its text and is read back unchanged iff the text has at most 63 |
| ContactRoutes.HopsOfParts | app/path_utils.py:227-227 | splitting at commas gives the parts, each stripped and in lower case, without the blank ones |
| ContactRoutes.SpellingIsForgiven | app/path_utils.py:227-227 | upper case and blanks around a hop do not matter |
| ContactRoutes.PrintedRouteParses | app/path_utils.py:225-247 | hops of one to three bytes written with commas parse to exactly those hops, and are refused iff they make more than 64 bytes |
| ContactRoutes.AcceptedExactly | app/path_utils.py:225-247 | a text is accepted iff it has hops, all of one width of 2, 4 or 6 characters that pass the hex check, and at most 64 bytes |
| ContactRoutes.AcceptedHops | app/path_utils.py:235-241 | the hops of an accepted route are hex, except three-byte hops with a gap of two blanks |
| ContactRoutes.HexCheckExactly | app/path_utils.py:238-241 | a stripped hop passes the check iff it is hex or has such a gap |
| ContactRoutes.GappedHopAccepted | app/path_utils.py:225-247 | every single hop with such a gap is accepted as three bytes |
| ContactRoutes.SixtyFourHopsAccepted | app/path_utils.py:243-247 | a text of 64 one-byte hops is accepted, and read back as a direct route |
| ContactRoutes.PathAcceptedExactly | app/decoder.py:632-645 | a decrypted PATH payload is accepted iff its first byte is below 192 and a byte follows the path it announces |
| ContactRoutes.DecodedPathReadsBack | app/decoder.py:635-663 | every decoded PATH route is read back unchanged |
| ContactRoutes.PathLayoutIsExact | app/decoder.py:635-653 | the decoded fields account for every byte after decryption |
| ContactTable.Contacts.Upsert | app/repository/contacts.py:40-129 | a route given with any non-null field replaces the stored triple whole, an unset one keeps it; no stored triple mixes two writes |
| ContactTable.Contacts.UpdateDirectPath | app/repository/contacts.py:350-394 | the learned route of an existing contact becomes the normalised arguments; nothing else changes |
| ContactTable.Contacts.SetRoutingOverride | app/repository/contacts.py:397-422 | the override becomes the normalised arguments or all null; nothing else changes |
| ContactTable.Contacts.ClearRoutingOverride | app/repository/contacts.py:425-437 | the override becomes all null; nothing else changes |
| ContactTable.Contacts.ReadingIsIdentity | app/repository/contacts.py:132-183 | after any run of writes, a route not written Unstable is read as stored, and the contact is reached by the override, else the learned route, else flood |
| ContactTable.EmptyPathIsNull | app/models.py:123-138 | dropping an empty path to null loses nothing in later normalisations |
| RawPackets.KeepOrder | app/repository/raw_packets.py:182-201 | deleting rows keeps id order and the unique index |
| RawPackets.KeptArrivals | app/repository/raw_packets.py:182-201 | deleting rows is forgetting their dedup keys |
| RawPackets.ArriveKeepsStored | app/repository/raw_packets.py:35-55 | one more insert keeps "first arrival of each dedup key, in arrival order" |
| RawPackets.RepeatByAnotherRouteIsKnown | app/repository/raw_packets.py:27-55 | once a packet has arrived, the same packet by any other route is a duplicate and changes nothing that is kept |
| RawPackets.RawPacketRepository.FindHash | app/repository/raw_packets.py:47-53 | it finds a row with the hash iff one is stored |
| RawPackets.RawPacketRepository.Create | app/repository/raw_packets.py:16-55 | over any run the table is the first packet of each dedup key in arrival order; new iff the key never arrived; a duplicate gets the id of the stored row |
| RawPackets.RawPacketRepository.MarkDecrypted | app/repository/raw_packets.py:146-153 | one row's link changes, nothing else |
| RawPackets.RawPacketRepository.Delete | app/repository/raw_packets.py:182-201 | deleting by a row condition keeps exactly the other rows, and what is left is as if the deleted dedup keys had never arrived |
| RawPackets.RawPacketRepository.PruneOldUndecrypted | app/repository/raw_packets.py:182-191 | exactly the old undecrypted rows go; what is left is as if they and their duplicates had never come |
| RawPackets.RawPacketRepository.PurgeLinkedToMessages | app/repository/raw_packets.py:194-201 | exactly the linked rows go, likewise |
| KeysetScan.ScanIncreasing | app/repository/raw_packets.py:78-107 | ids come out strictly increasing whatever is written between batches |
| KeysetScan.YieldedWasWaiting | app/repository/raw_packets.py:95-107 | each yielded row stood undecrypted in the table its batch read |
| KeysetScan.PassedMeansYielded | app/repository/raw_packets.py:95-107 | a row that stays undecrypted is never passed over by the cursor |
| KeysetScan.WaitingRowYieldedOnce | app/repository/raw_packets.py:78-107 | a row present and undecrypted in every table the scan reads is yielded exactly once, for every positive batch size |
| KeysetScan.UndecryptedAfter | app/repository/raw_packets.py:97-102 | moving the cursor to the k-th waiting row leaves exactly the rows after it |
| KeysetScan.QuietScan | app/repository/raw_packets.py:78-107 | with no writer about, the scan is the filtered sorted table |
| KeysetScan.StreamUndecryptedRows | app/repository/raw_packets.py:78-107 | the loop ends at the first empty batch, and does end when ids are bounded, with what the reference scan yields |
| KeysetScan.YieldRows | app/repository/raw_packets.py:105-107 | the cursor follows every row handed out, and every row is handed out in order |
| KeysetScan.TextExactly | app/decoder.py:261-269 | a packet is taken for a text message iff bits 2 to 5 of its first byte are 2, which is the payload type it parses to |
| KeysetScan.StreamUndecryptedTextMessages | app/repository/raw_packets.py:118-131 | the filtered stream has increasing ids and exactly the text packets of the underlying scan |
| AdvertPaths.RankAfterUpsert | app/repository/contacts.py:751-778 | in a pruned table the rows ahead of a path are all the paths of the whole history heard later |
| AdvertPaths.StepMatches | app/repository/contacts.py:750-778 | upsert and prune keep the table equal to the top N of the unpruned history |
| AdvertPaths.PruningIsInvisible | app/repository/contacts.py:732-778 | for increasing timestamps and a fixed N the table holds exactly the N most recently heard paths, with their true last_seen, as if nothing had ever been pruned |
| AdvertPaths.CountsAreTrue | app/repository/contacts.py:751-761 | while at most N paths have been heard, each row holds the first and latest time and the number of all its observations, whatever their order |
| AdvertPaths.KeptBeforeDropped | app/repository/contacts.py:765-778 | what pruning keeps comes before what it drops: later heard, or heard more often, or over fewer hops, or by the smaller path, in that order |
| AdvertPaths.PruneCount | app/repository/contacts.py:765-778 | pruning keeps N rows, or all when there are fewer, also when times are equal |
| AdvertPaths.TopCount | app/repository/contacts.py:765-778 | that is N rows, or all paths when there are fewer |
| AdvertPaths.ContactAdvertPathRepository.RecordObservation | app/repository/contacts.py:732-778 | the contact's rows are the replay of all its observations with their limits; other contacts keep their rows |
| AdvertPaths.EntryExactly | app/repository/contacts.py:743-748 | a call stands for the path in lower case, its hops as given or one per two digits, and at least one row to keep |
| AdvertPaths.ContactAdvertPathRepository.HoldsMostRecent | app/repository/contacts.py:732-778 | so under one limit a contact's rows are its most recent paths of all time, min(N, all) of them |
| Promotion.MergeAssociates | app/repository/contacts.py:553-577 | merging contacts is associative |
| Promotion.MergeAnyFirst | app/repository/contacts.py:617-691 | merging a set of contacts does not depend on the order |
| Promotion.MergedHeard | app/repository/contacts.py:565-577 | the merged heard count of a path is the total over the set |
| Promotion.MergedTimes | app/repository/contacts.py:640-687 | last_seen, last_contacted and last_read_at are the latest, first_seen the earliest over the merged rows, nulls counting as absent |
| Promotion.MergedPathLast | app/repository/contacts.py:565-577 | a merged path row's last_seen is the latest of the rows merged |
| Promotion.MergedPathFirst | app/repository/contacts.py:565-577 | and its first_seen the earliest |
| Promotion.MergedNameLast | app/repository/contacts.py:553-564 | a merged name row's last_seen is the latest |
| Promotion.MergedNameFirst | app/repository/contacts.py:553-564 | and its first_seen the earliest |
| Promotion.MatchesUnchanged | app/repository/contacts.py:616-635 | promoting placeholders never changes which full keys another placeholder matches |
| Promotion.PromotableExactly | app/repository/contacts.py:598-635 | a placeholder is promoted iff it has fewer than 64 digits, the full key begins with it, and exactly one contact of 64 digits does |
| Promotion.PromoteOne | app/repository/contacts.py:633-691 | merging and deleting one placeholder extends the set merged so far by it |
| Promotion.HeardIsConserved | app/repository/contacts.py:544-693 | over all contacts the heard count of every path is what it was |
| Promotion.ContactRepository.PromoteCandidate | app/repository/contacts.py:611-691 | a placeholder is merged and deleted iff it is a proper prefix matching exactly one full contact, else it and its child rows stay |
| Promotion.ContactRepository.SelectPlaceholders | app/repository/contacts.py:598-609 | the query finds every shorter key that is a prefix, longest first |
| Promotion.ContactRepository.PromoteRows | app/repository/contacts.py:611-693 | the loop returns the promotable rows in order and leaves the table with exactly those merged |
| Promotion.ContactRepository.PromotePrefixPlaceholders | app/repository/contacts.py:544-693 | the table becomes the order-free reference; exactly the promotable placeholders are returned, each once, longest first; ambiguous and unrelated contacts keep their rows |
| MqttLoop.StepKeepsInv | app/fanout/mqtt_base.py:181-306 | every step of the loop, of start, stop, a failing publish and the keystore keeps the invariant |
| MqttLoop.RunKeepsInv | app/fanout/mqtt_base.py:87-306 | it holds at every moment of every run |
| MqttLoop.NoLostWakeup | app/fanout/mqtt_base.py:220-245 | while parked connected, the event is clear iff the version is the captured one, and then the live client was built from the current settings; connected implies a client |
| MqttLoop.IdleMissesOnlyKeys | app/fanout/mqtt_base.py:187-206 | parked unconfigured with the event clear, there is something to connect to iff keys that were missing when the loop looked are there now; never where settings alone decide |
| MqttLoop.KeysArriveUnnoticed | app/fanout/community_mqtt.py:299-311 | that happens: settings that need keys, started without them, and the keys arriving later |
| MqttLoop.OnlyTheTimeoutRecovers | app/fanout/mqtt_base.py:193-206 | such a loop can move only by its timeout, and then connects with the current settings; without a timeout it cannot move |
| MqttLoop.ChangesPutBehind | app/fanout/mqtt_base.py:87-134 | new settings and failing publishes put any running loop behind, wherever it is |
| MqttLoop.BehindMovesOn | app/fanout/mqtt_base.py:181-306 | every step of a loop that is behind, failures and timeouts included, brings it nearer to testing the current settings |
| MqttLoop.BehindCanMove | app/fanout/mqtt_base.py:181-306 | and it can always take one |
| MqttLoop.NewSettingsReachTheBroker | app/fanout/mqtt_base.py:181-306 | from any position, by any schedule of its own steps, a loop that is behind starts to connect with exactly the current settings within six steps |
| MqttLoop.BackoffDoubles | app/fanout/mqtt_base.py:306-306 | doubling under the cap is capping the doubled schedule |
| MqttLoop.BackoffSchedule | app/fanout/mqtt_base.py:247-306 | a sleeping loop waits min(5 * 2^(k-1), max) for the k-th failure in a row; a connect starts the count again |
| MqttLoop.FailureSleeps | app/fanout/mqtt_base.py:252-306 | in every run a failed attempt, or a connection ending in a failure, is counted and leads to a sleep of the current backoff |
| MqttLoop.SleepBeforeRetry | app/fanout/mqtt_base.py:302-306 | the loop leaves that sleep only when it has run out or the task is cancelled, so a sleep lies between two attempts with a failure between them |
| MqttLoop.ConnectedUntilPublishFails | app/fanout/mqtt_base.py:219-249 | from a successful connect until the client's context is left, the publisher counts as connected iff no publish has failed |
| MqttLoop.ConnectingOutcomes | app/fanout/mqtt_base.py:187-224 | exactly where each step towards a connection leads |
| MqttLoop.ParkedOutcomes | app/fanout/mqtt_base.py:229-245 | a connected loop parks with the event clear while nothing has changed and leaves otherwise; the periodic hook runs on a timeout and may ask to leave |
| MqttLoop.LeavingOutcomes | app/fanout/mqtt_base.py:245-306 | a failure inside the context leaves it first; every failure sleeps, a clean end goes back to the top, a cancelled loop ends; none keeps the client |
| MqttLoop.OutsideOutcomes | app/fanout/mqtt_base.py:87-134 | what start, stop and a failing publish announce and reset |
| MqttLoop.StopLeavesNothing | app/fanout/mqtt_base.py:96-108 | after stop() there is no client and no connection |
| Migration44.MergeColumn | app/migrations/_044_dedupe_incoming_direct_messages.py:23-34 | one column appends exactly its unseen observations |
| Migration44.MergeMessagePaths | app/migrations/_044_dedupe_incoming_direct_messages.py:9-36 | the result is every distinct observation once, in order, null when there is none; non-lists and non-objects are skipped |
| Migration44.EveryObservationOnce | app/migrations/_044_dedupe_incoming_direct_messages.py:23-34 | each path object of a group has a kept one with the same path, time and length; no two kept ones agree in all three |
| Migration44.MergedColumnExactly | app/migrations/_044_dedupe_incoming_direct_messages.py:36-36 | the merged column is null iff no column lists an object, and else lists the kept ones |
| Migration44.MergedExtremes | app/migrations/_044_dedupe_incoming_direct_messages.py:112-117 | received_at is the earliest and acked the largest of the group, both attained |
| Migration44.AckedIsLargest | app/migrations/_044_dedupe_incoming_direct_messages.py:117-117 | in plain words: no row's count exceeds the merged one, a missing count being 0, and some row has it |
| Migration44.MergedTexts | app/migrations/_044_dedupe_incoming_direct_messages.py:109-137 | field by field: the keeper's own columns, and the first signature, sender name and sender key there is |
| Migration44.NothingToMerge | app/migrations/_044_dedupe_incoming_direct_messages.py:113-116 | without any such row there is none, and the plain type |
| Migration44.FirstTxtTypeIsFirst | app/migrations/_044_dedupe_incoming_direct_messages.py:113-113 | the merged text type is that of the first row whose type is not plain |
| Migration44.OtherGroupsUntouched | app/migrations/_044_dedupe_incoming_direct_messages.py:88-149 | collapsing some groups leaves the rows of any other group as they are |
| Migration44.CollapseOne | app/migrations/_044_dedupe_incoming_direct_messages.py:119-149 | the update and delete of one group add it to the groups collapsed |
| Migration44.RelinkOne | app/migrations/_044_dedupe_incoming_direct_messages.py:138-143 | repointing one group's duplicates adds it to the groups whose links are followed |
| Migration44.Database.Relink | app/migrations/_044_dedupe_incoming_direct_messages.py:138-143 | links to any duplicate lead to the keeper, all others stay |
| Migration44.Database.CollapseGroup | app/migrations/_044_dedupe_incoming_direct_messages.py:88-149 | the statements for one group collapse exactly that group and its links |
| Migration44.Database.Migrate | app/migrations/_044_dedupe_incoming_direct_messages.py:75-149 | in whatever order the groups come, messages and links become those of the one-shot reference |
| Migration44.CollapsedTable | app/migrations/_044_dedupe_incoming_direct_messages.py:75-149 | afterwards every group has at most one row; a duplicated group has its lowest id, every distinct observation once in order, the earliest received_at and the largest acked |
| Migration44.CollapsedIffDuplicated | app/migrations/_044_dedupe_incoming_direct_messages.py:75-104 | a message is collapsed iff the table holds another incoming one of the same conversation and text and the same timestamp, a missing one counting as 0 |
| Migration44.OthersUnchanged | app/migrations/_044_dedupe_incoming_direct_messages.py:75-149 | a row outside the duplicated groups is unchanged |
| Migration44.LinksStayInGroup | app/migrations/_044_dedupe_incoming_direct_messages.py:138-149 | every link to a message still leads to a row of that message's group |
| LppKeys.AssignKeys | app/fanout/mqtt_ha.py:127-140 | the n-th item of a base key gets occurrence n and the key for it, in order |
| LppKeys.AssignLppKeys | app/fanout/mqtt_ha.py:127-140 | for every list of readings the assigned keys are pairwise distinct; the first of a base key keeps it, the n-th gets _n |
| LppKeys.SuffixedInjective | app/fanout/mqtt_ha.py:122-139 | a key, suffixed or not, determines its base key and occurrence |
| LppKeys.DecimalInjective | app/fanout/mqtt_ha.py:139-139 | different numbers have different decimal texts |
| LppKeys.DecimalReads | app/fanout/mqtt_ha.py:139-139 | the number in a key reads as that number |
| LppKeys.SameBaseExactly | app/fanout/mqtt_ha.py:122-137 | two readings count as repetitions iff they have the same type and channel, defaults included |
| LppKeys.KeysDistinct | app/fanout/mqtt_ha.py:127-140 | two readings never share a key, whatever their type names contain |
| SpiContacts.SpiContactStore.GetByPublicKey | app/backends/spi_contact_store.py:53-58 | it finds the listed contact iff there is one, case aside |
| SpiContacts.SpiContactStore.GetByName | app/backends/spi_contact_store.py:50-51 | what it finds is listed and has that name now; on a complete index it misses nobody |
| SpiContacts.SpiContactStore.Refresh | app/backends/spi_contact_store.py:60-78 | fresh objects for the rows in order, a sound index, and a complete one when names are distinct |
| SpiContacts.SpiContactStore.Rename | app/backends/spi_contact_store.py:84-93 | the old name's entry goes, the new name leads to the contact, the index stays sound |
| SpiContacts.SpiContactStore.Append | app/backends/spi_contact_store.py:88-93 | a new contact is listed last and found under its name |
| SpiContacts.SpiContactStore.AddOrUpdate | app/backends/spi_contact_store.py:80-93 | updates the object listed under the key or appends one; other contacts keep their names; sound always, complete while names are distinct |
| SpiContacts.SpiContactStore.Remove | app/backends/spi_contact_store.py:95-98 | the key leaves list and index, all else stays; soundness and completeness survive |
| Signing.FromToLE | app/keystore.py:53-53 | writing a number that fits in little-endian bytes and reading it back is the identity |
| Signing.ToFromLE | app/keystore.py:50-53 | and so is reading bytes and writing them back |
| Signing.ReduceMultiplier | app/keystore.py:50-52 | multiples of the base depend only on the multiplier modulo L |
| Signing.OrderOfBase | app/keystore.py:33-33 | L is 2^252 + 27742317777372353535851937790883648493 |
| Signing.SignedEquation | app/keystore.py:50-53 | (r + (k mod L) a) mod L times the base is rB + k(aB) |
| Signing.SignatureHalves | app/keystore.py:50-53 | a signature is 64 bytes, the encoded nonce point and the exact encoding of s |
| Signing.SignatureVerifies | app/keystore.py:40-53 | in any group whose base has order L, a signature passes the check of section 5.1.7 of RFC 8032 under the scalar's public key, with s below L |
| Signing.ClampScalar | app/decoder.py:383-397 | the edited bytes are those decodeScalar25519 of section 5 of RFC 7748 decodes; fewer than 32 bytes fail |
| Signing.ClampKeepsRest | app/decoder.py:383-397 | clamping clears the low three bits and the top bit, sets the second highest, and keeps every other bit |
| Signing.ClampedScalar | app/decoder.py:383-397 | a clamped scalar is a multiple of 8 in [2^254, 2^255), and clamping it again changes nothing |
| ChannelText.FindIsFirst | app/radio_sync.py:524-524 | the separator found is the first one |
| ChannelText.SplitRendered | app/radio_sync.py:520-530 | a rendered message splits back into its parts iff the sender has 1 to 49 characters, none a colon, bracket or NUL |
| ChannelText.RenderSplit | app/radio_sync.py:520-530 | a split text is the rendering of its parts; an unsplit one is no valid sender's rendering |
| ChannelText.AgreeWhenSplit | app/decoder.py:202-222 | a sender found in the whole text lies before the first NUL, so the decoder finds it too |
| ChannelText.SplittersAgree | app/decoder.py:202-222 | both paths find the same sender in every string, the decoder's message is the sync path's cut at the first NUL, and they agree altogether iff the text has no NUL |
| ChannelText.SplittersDisagree | app/decoder.py:206-222 | a text with a NUL that the two read differently |
| ChannelText.FanoutRecoversMessage | app/fanout/base.py:68-92 | stripping with the sender the splitter found gives the splitter's message, and the original one for a valid sender |
| ChannelText.OnlyTheSenderIsStripped | app/fanout/base.py:82-92 | a channel text is changed only by taking off exactly its rendered sender |
| ChannelText.OthersPassUnchanged | app/fanout/base.py:77-84 | direct messages and texts without a sender pass unchanged, a missing text as the empty one |

## Left out

* Serial, TCP, BLE and SPI drivers, HTTP, WebSocket, push, webhook, bot and Apprise code, logging, the setup wizard and
  the frontend: plumbing around the logic modelled here.
* The radio session and the MQTT loop are state machines on values instead of classes, because their methods interleave
  at every await; lock queues are over-approximated (any waiter may be next), and connect() is reached only through
  reconnect(), whose four transports are one step that installs a backend or fails.
* In the radio session the poll-pausing context and the auto-fetch calls are awaits without effect on the modelled
  fields; setup state and key clearing are not modelled.
* The MQTT model assumes that lifecycle calls of one publisher do not overlap; what a subclass does before connecting
  is going on, failing, or clearing the event and waiting with a timeout.
* NewSettingsReachTheBroker: is about loops that do not give up for good on an event loop that cannot serve them
  (app/fanout/mqtt_base.py:264-284).
* StartSession: the capacity is fixed once per transport, right after teardown has cleared the cache; changes of
  max_channels during a session are not modelled.
* SendChannelMessage: flood-scope and path-hash overrides around the send (app/services/message_send.py) and the memory
  of pending slots are left out; the preferred slot is a natural number.
* Rounding of 0.80 * capacity and 0.95 * capacity in binary floating point.
* SelectForRadioSync: keys are compared as they are, the source lower-cases them first; which contacts the three queries
  return is an input.
* Reconcile: keys are lower-case, nobody else writes to the radio or refreshes the library's cache while the job runs,
  and on SPI the contacts are those of the database; the auto-evict variant is left out.
* StreamUndecryptedRows: takes a bound on ids as given, since endless insertion between batches could keep the source's
  scan running for ever.
* Upsert: the columns other than the two route triples, and deletion of contacts, are left out.
* RecordObservation: contact keys are already normalised; row ids and the read queries are left out.
* PromotePrefixPlaceholders: `LIKE` is modelled as prefix (keys are hex), the full contact exists as its callers
  guarantee.
* Migrate: schema checks, the index created at the end, JSON text and unhashable JSON keys are left out.
* AssignLppKeys: channels that are not integers.
* Refresh: the row limit of the query and the parsed out_path of a contact.
* SignatureVerifies: SHA-512 and curve arithmetic are parameters; the library call that rejects a zero nonce scalar
  never fails here.
* ExplicitRouteReadsBack: white space and case mapping beyond U+00FF.
* Case mapping of keys is ASCII.
* UTF-8 decoding, decryption and MAC checks before the decoded layouts.
