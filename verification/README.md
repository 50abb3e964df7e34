# Verified models of the VectorCore HSS

This project models the parts of the HSS whose correctness spans functions, loops or whole runs, and proves what they
promise. `dafny verify dfyconfig.toml` checks everything.

* **GeoRed** (`GeoredQueue.dfy`, `GeoredClient.dfy`, `GeoredMerge.dfy`, `GeoredDelivery.dfy`): the outbound peer queue as
  a state machine in which any number of publishers interleave with the worker, each `select`, atomic add, receive, tick
  and push being one step; the peer client as a class tied to that machine; SQN merging on the receiving side and its
  convergence; and the two sides together.
* **Authentication** (`Milenage.dfy`, `Vectors.dfy`, `Kdf.dfy`, `SqnRuns.dfy`, `SqnEvents.dfy`, `SqnRequests.dfy`,
  `Auth.dfy`): the USIM side of TS 35.206 (section 4.1) and TS 33.102 (sections 6.3.3 and 6.3.5) as the specification, the
  HSS code proved against it, and the life of one AUC record's SQN under all interleavings of S6a, EAP-AKA, 5G-AKA, GSUP
  and GeoRed. AES-128, HMAC-SHA-256, RAND and the emakeev/milenage library are parameters.
* **S6c message waiting** (`S6c.dfy`, `S6cHandlers.dfy`): RSDS, alerts and answers as a state machine over an unreliable
  network, and the handlers as a class when they run one at a time.
* **Codecs** (`Gsup.dfy`, `IdResp.dfy`, `Tbcd.dfy`, `Uli.dfy`, `Suci.dfy`, with `Text.dfy`, `Bytes.dfy` and `Arith.dfy`).
* **TFT rewriting** (`Tft.dfy`), the **CSV interlocks** (`Interlocks.dfy`) and the **operation log** (`Rollback.dfy`,
  `RollbackServer.dfy`).

Strings are sequences of one-byte characters; case folding is that of ASCII. A Go byte is a `bv8`; `int64`, `int32`,
`uint32` and length-octet arithmetic is truncated or wrapped explicitly.

## Where the code does not do what one would expect

Each of these is proved: an exact condition for the property, or a general witness against it.

* The 5G resynchronisation stores the recovered SQN itself, so the vector it answers with repeats SQN_MS; only later ones
  exceed it (`FiveGResyncFirstIsStale`, `ResyncAnd5GAKAVector`). S6a adds 100.
* Neither path keeps the SQN within 48 bits. A vector carries the low 48, so after a resynchronisation with SQN_MS within
  100 of 2^48 the first S6a vector falls below SQN_MS, for example to 50 from 2^48 - 50 (`S6aResyncCanFallBelow`), and so
  does the second 5G vector from 2^48 - 1 (`FiveGResyncCanFallBelow`). `S6aResyncClearsMs` and `FiveGResyncFirstIsStale`
  say exactly which vectors exceed SQN_MS.
* An SQN event can advertise more than the record holds. From a reachable state this happens, without the column being
  lowered any more, exactly when the column is below an earlier value that a request can still get from the AUC cache, or
  below what a request under way will publish, or below an event already (`OveradvertisedIff`). No stale cache is needed:
  a GSUP request that reads, is overtaken by a 5G resynchronisation to a lower SQN_MS, and then reserves advertises what
  it read plus 32 (`FreshReadsOveradvertise`). A record whose column is never lowered is free of it
  (`AdvertisedIsStored`).
* All freshness results take `AtomicGetAndIncrementSQN` to return the record before the add, as its name and its callers
  have it. internal/repository/postgres/store.go:121-136 returns the struct on which it called
  `tx.Model(&before).Update("sqn", ...)`, and GORM's `Update` also assigns the new value to its model, so the returned
  SQN would already be incremented. Blocks of one size would still not overlap, but a block followed by a smaller one
  repeats SQNs, for example five vectors and then one (`BlocksFromAfterOverlap`).
* When the record cannot be read again after a resynchronisation, the request fails with the column already rewritten
  (`ResyncRecord`).
* Two ALRs sent in one clock tick share a session id. A success answer for one of them deletes a record other than its own
  exactly when the ALR that waits under the shared id was sent for another record, and that record is still stored
  (`MisdeletesIff`, `CollidingSessionsMisdelete`).
* An alert that has read a record puts it back by its metadata update if the record is cleared in between
  (`HeldRecordReturns`); a cleared record can come back exactly when it is returnable (`ReturnsIff`).
* The ten-record limit can be exceeded by overlapping reports (`OverlappingReportsExceedLimit`), and without any by an
  alert that writes back a cleared record (`AlertRouteExceedsLimit`). `MostRecords` gives the exact number a state can
  grow to without new reports, and `LimitSafeIff` the interleavings that keep the limit.
* `ApplyTFTHandling` keeps the meaning of a rule exactly when the swapped rule reads back as itself (`Swappable`): no `to`
  inside what becomes the source, no option word inside what becomes the destination, past their first tokens.
* The `LIKE` interlock agrees with the readers of a list exactly when no entry is spelled differently from `strconv.Itoa`;
  a blank after a comma is enough to hide an id (`GuardExactIff`, `BlankHidesId`).
* SUCI de-concealment reads the high half of each MSIN octet first. It inverts a concealer that packs that way for every
  length. The low-half-first packing of TS 24.501 is misread unless the length is even and each pair repeats its digit
  (`LowFirstPackingMisread`). A concealed output is accepted only if the curve library accepts its ephemeral key, which is
  a parameter here; it decides whether compressed P-256 keys work.
* The bare Sh MSISDN form is misread exactly when its first octets look like TON/NPI octets, in digits when the second one
  is 8 or 9 (`ShBareForm`, `ShSecondDigit`); the TON-only form exactly when it passes for the length form (`ShTonForm`), which the
  0x91 form does only from 289 digits on (`GsupMsisdnReadBySh`).
* JSON rollback loses integers that are not float64 values (`RollbackUndoes`).
* `parseIDResp` panics on a zero length octet before the unit name (`PanicsIff`).
* The comment on `encodePLMN` (internal/diameter/cx/handlers.go:37) gives octets the code does not produce; the model
  follows the code.

## Model

| member | source | states |
|---|---|---|
| GeoredQueue.FromSettings | internal/geored/manager.go:29-40 | settings that are not positive become 50000 events and batches of 500, so both limits are at least 1 |
| GeoredQueue.StepInv | internal/geored/client.go:78-138 | every atomic step of publishers, worker and ticks keeps bounds, exact depth, conservation and order |
| GeoredQueue.QueueOrder | internal/geored/client.go:78-138 | in every run the delivered batches, the open batch and the channel form a subsequence of the accepted sends; the channel keeps its capacity and each batch has 1 to batchMax events |
| GeoredQueue.QueueConservation | internal/geored/client.go:78-137 | in every run each event that entered is once in channel, hands, delivered, lost with a failed push, drained, refused or inside enqueue; queueDepth is the channel length corrected by pending updates, modulo 2^32 |
| GeoredQueue.SubsequenceTrans | internal/geored/client.go:113-137 | being a subsequence composes, so order carries over to whatever the peer does with its batches |
| GeoredQueue.SoloNeverRejects | internal/geored/client.go:76-93 | when publishers never overlap, dropping the oldest always makes room for the newest |
| GeoredQueue.EnqueueNeverBlocks | internal/geored/client.go:78-99 | at every point of enqueue exactly one case of the select applies, by whether the channel is full or empty, and the counter can be updated |
| GeoredClient.PeerClient.constructor | internal/geored/client.go:64-73 | a new client is empty, healthy and in the machine's initial state |
| GeoredClient.EnqueueWithRoom | internal/geored/client.go:78-81 | an undisturbed enqueue below capacity is a run of the machine |
| GeoredClient.EnqueueWhenFull | internal/geored/client.go:82-93 | an undisturbed enqueue on a full queue is a run of the machine |
| GeoredClient.PeerClient.Enqueue | internal/geored/client.go:78-99 | undisturbed, the event is always accepted, at the price of exactly the oldest one when the queue is full |
| GeoredClient.PeerClient.OnEvent | internal/geored/client.go:113-133 | a received event joins the batch, which is pushed and emptied exactly when it reaches batchMax; health follows the push |
| GeoredClient.PeerClient.OnTick | internal/geored/client.go:113-136 | a tick pushes the open batch, and nothing when it is empty |
| GeoredClient.Publish | internal/geored/manager.go:59-63 | every peer's queue gets the event, each affected only by its own copy |
| GeoredMerge.MergeAllIsMax | internal/geored/handlers.go:95-101 | after any entries in any order each record holds the maximum of its start and what was received for it |
| GeoredMerge.OrderAndRepeatsIrrelevant | internal/geored/handlers.go:89-101 | two receptions of the same entries, reordered or repeated, end in the same table |
| GeoredMerge.FewerEntriesNoHigher | internal/geored/handlers.go:89-101 | losing events can only leave a record lower, never below its start |
| GeoredMerge.Replica.constructor | internal/geored/handlers.go:21-22 | a replica starts with its own node id and table |
| GeoredMerge.Replica.ApplyEvent | internal/geored/handlers.go:86-101 | an SQN event writes only when greater; unknown ids and other events leave SQNs alone |
| GeoredMerge.Replica.HandleEvents | internal/geored/handlers.go:34-48 | a batch from this node itself is dropped, any other is merged as a whole |
| GeoredMerge.Replica.ApplySnapshot | internal/geored/manager.go:182-191 | a snapshot merges entry by entry |
| GeoredMerge.Replica.BuildSnapshot | internal/geored/snapshot.go:50-56 | lists exactly the records with their SQNs, once each, or nothing when listing fails |
| GeoredMerge.ListRecords | internal/geored/snapshot.go:52-55 | the loop over the records, in whatever order the store returns them |
| GeoredMerge.SnapshotIsJoin | internal/geored/manager.go:182-191 | applying a snapshot is the pointwise maximum with the table it lists, in any listing order |
| GeoredMerge.Converges | internal/geored/manager.go:114-131 | with increments stopped, in every order of deliveries, snapshots and single entries merged from them, a node that went through every peer's snapshot holds the highest SQN any node started with |
| GeoredMerge.ConvergedNodesAgree | internal/geored/manager.go:180-191 | any two such nodes agree |
| GeoredMerge.ConvergenceAttainable | internal/geored/manager.go:114-131 | from any state any node can go through a snapshot of every peer, so convergence is reached by some order of events |
| GeoredDelivery.PeerHoldsMaximum | internal/geored/handlers.go:34-48 | for every run of the queue and whatever batches the network brings, in any order and repetition, each peer record ends at the maximum of its start and what arrived, at least the merge of what was delivered and at most the merge of all accepted sends |
| GeoredDelivery.LossHarmlessIff | internal/geored/client.go:82-93 | losses leave a record where no loss would have exactly when its highest accepted SQN arrived or was there before |
| GeoredDelivery.QuietQueueDelivers | internal/geored/client.go:78-137 | with nothing dropped, refused, in hand or failed, a peer record is the maximum of its start and all that was published |
| GeoredDelivery.ArrivedAccepted | internal/geored/client.go:113-144 | whatever arrives was accepted into the queue, and whatever was delivered arrives |
| Milenage.RotIsBitRotation | internal/crypto/milenage.go:52-52 | rotation by n bytes, and only it, is rotation by 8n bits |
| Milenage.RotationAction | internal/crypto/milenage.go:108-118 | rotations compose modulo 16 |
| Milenage.RotationDistributes | internal/crypto/milenage.go:99-118 | rotation distributes over exclusive or |
| Milenage.AcceptedExactlyAutn | internal/crypto/milenage.go:181-217 | the USIM accepts an AUTN and reads SQN s from it exactly when it is the AUTN for s |
| Milenage.AutsInjective | internal/crypto/milenage.go:221-256 | AUTS for one challenge determines the SQN |
| Milenage.FunctionsAreStandard | internal/crypto/milenage.go:134-217 | f1 to f5* octet by octet as in section 4.1 of TS 35.206: CK is OUT3, IK is OUT4, RES and AK the last and first octets of OUT2 |
| Milenage.TokenOctets | internal/crypto/milenage.go:221-308 | AUTS and AUTN octet by octet |
| Milenage.ByteBitWeights | internal/crypto/milenage.go:52-52 | the bits of the rotation are those of the octets, the weightiest first |
| Vectors.Xor16 | internal/crypto/milenage.go:100-106 | the loop is byte-wise exclusive or |
| Vectors.RotateLeft128 | internal/crypto/milenage.go:109-118 | the loop is the rotation |
| Vectors.ByteRotation | internal/crypto/milenage.go:83-95 | a byte-aligned rotation value, reduced as the code does, is that bit rotation |
| Vectors.MilenageFN | internal/crypto/milenage.go:134-144 | computes OUTn of TS 35.206 |
| Vectors.MilenageF1 | internal/crypto/milenage.go:148-171 | MAC-A and MAC-S are the halves of OUT1 for the SQN's low 48 bits |
| Vectors.MilenageCore | internal/crypto/milenage.go:181-217 | XRES, CK, IK, AK and MAC-A are the USIM's f2, f3, f4, f5 and f1 |
| Vectors.BuildAutn | internal/crypto/milenage.go:296-308 | the bytes of SQN xor AK, AMF and MAC-A |
| Vectors.GenerateEUTRANVectorCustom | internal/crypto/milenage.go:275-316 | fails exactly on wrong lengths; otherwise the USIM accepts the AUTN, reads the SQN used, answers XRES and derives the same KASME |
| Vectors.GenerateEAPAKAVectorCustom | internal/crypto/milenage.go:319-358 | fails exactly on wrong lengths; otherwise the USIM accepts, reads the SQN used and returns the same RES, CK and IK |
| Vectors.MilenageResync | internal/crypto/milenage.go:221-256 | returns s exactly on the AUTS of a USIM at s, and an error on any other bytes |
| Vectors.ResyncCustom | internal/crypto/milenage.go:362-371 | the same on RAND and AUTS together; any length but 30 is refused |
| KdfStrings.ParseInvertsKdf | internal/crypto/auth.go:132-137 | a KDF string can be taken apart again when its parameters are short |
| KdfStrings.KdfInjective | internal/crypto/5gaka.go:50-76 | the CK'/IK', KAUSF, XRES* and KASME inputs are equal only for one kind and equal parameters |
| KdfStrings.TextsWritten | internal/crypto/auth.go:110-137 | the four strings octet by octet: FC 0x20, 0x6A, 0x6B and 0x10, then each parameter followed by its length |
| KdfStrings.AppendKdfParam | internal/crypto/auth.go:132-137 | appends a parameter and its 16-bit length |
| KdfStrings.DeriveKasme | internal/crypto/milenage.go:261-271 | HMAC over 0x10, PLMN, its length, SQN xor AK and its length, keyed with CK || IK (Annex A.2 of TS 33.401) |
| KdfStrings.DeriveEapAkaPrimeKeys | internal/crypto/auth.go:110-130 | the length checks are the only errors; the keys are the two halves of the HMAC over 0x20, access network, SQN xor AK and their lengths |
| KdfStrings.Derive5GKeys | internal/crypto/5gaka.go:47-79 | KAUSF and the last half for XRES* from the strings with FC 0x6A and 0x6B (Annexes A.2 and A.4 of TS 33.501) |
| SqnRuns.StepInv | internal/crypto/auth.go:57-72 | every store access of every request keeps the reserved SQNs at base + 32k and the column behind the last of them |
| SqnRuns.WireSqnsRepeatOnlyAfter2To43 | internal/crypto/auth.go:57-93 | between two ResyncSQN writes two vectors carry the same 48-bit SQN exactly when they are a multiple of 2^43 reservations apart |
| SqnRuns.StepsOf32 | internal/crypto/auth.go:71-73 | in reservation order SQNs rise by exactly 32 up to the end of int64 |
| SqnRuns.S6aResyncClearsMs | internal/diameter/s6a/air.go:72-92 | after an S6a resynchronisation, whatever else runs, the k-th SQN is SQN_MS + 100 + 32k; the 48 bits a vector carries are that number exactly while it is below 2^48, and exceed SQN_MS exactly while the distance does not carry SQN_MS over 2^48 |
| SqnRuns.S6aResyncCanFallBelow | internal/diameter/s6a/air.go:82-82 | for every SQN_MS within 100 of 2^48 a reachable first vector lies below it |
| SqnRuns.FiveGResyncFirstIsStale | internal/crypto/5gaka.go:101-113 | after a 5G resynchronisation a vector carries SQN_MS itself exactly for the first and every 2^43rd after it, and exceeds it exactly for the others while the distance does not carry SQN_MS over 2^48 |
| SqnRuns.FiveGResyncCanFallBelow | internal/crypto/5gaka.go:105-105 | for every SQN_MS within 32 of 2^48 a reachable second vector lies below it |
| SqnRuns.WireAbove | internal/crypto/milenage.go:148-158 | when the low 48 bits of an SQN a given distance above another exceed it |
| SqnRuns.BlocksFromAfterOverlap | internal/repository/postgres/store.go:121-136 | if the record returned were the one after the add, a block and the next would share an SQN exactly when the second is smaller |
| SqnEvents.OveradvertisedIff | internal/diameter/s6a/air.go:116-116 | from every reachable state, a run that never lowers the column reaches an event above it exactly when the column is below a readable earlier value, below what a request under way will publish, or below an event |
| SqnEvents.GoingOn | internal/gsup/handlers.go:88-115 | a request whose advertisement overtakes the column gets there by going on alone |
| SqnEvents.ReadingStale | internal/gsup/handlers.go:88-115 | a readable value above the column misleads the next request |
| SqnEvents.AdvertisedIsStored | internal/diameter/s6a/air.go:116-116 | in a run from a provisioned record that never lowers the column, no event and no request about to publish is above it |
| SqnEvents.LoweringOveradvertises | internal/gsup/handlers.go:88-115 | the four steps by which a cached value above the column becomes an event |
| SqnEvents.LoweringReachable | internal/crypto/5gaka.go:105-105 | any resynchronisation below an SQN the record has had reaches such a state |
| SqnEvents.FreshReadsOveradvertise | internal/gsup/handlers.go:88-115 | for any two SQNs, a run in which every read returns the column itself ends with an event above it |
| SqnRequests.Alone | internal/diameter/s6a/air.go:72-116 | an S6a or 5G request that nothing interrupts, however far it gets, is a run with exactly these effects on column, reserved SQNs and events |
| SqnRequests.GsupAlone | internal/gsup/handlers.go:88-115 | the same for a GSUP request that draws some or all of its vectors |
| Auth.CarriedIsWire | internal/crypto/milenage.go:296-302 | the six bytes of a vector's SQN are its low 48 bits, and two are equal exactly when those are |
| Auth.CarriedRepeatOnlyAfter2To43 | internal/crypto/auth.go:57-93 | the SQN bytes of two vectors between the same two writes agree exactly a multiple of 2^43 reservations apart |
| Auth.ReportsOfIssued | internal/crypto/auth.go:196-216 | what is taken for an AUTS of the record is exactly what the USIM spelled by the record sends |
| Auth.MergeIsStep | internal/geored/handlers.go:95-101 | an SQN event changes the column exactly when the SQN machine can merge it, and as it does |
| Auth.ProfileRotates | internal/crypto/milenage.go:56-97 | a decoded profile's rotations are the bit rotations its record gives; unaligned ones are refused |
| Auth.Store.constructor | internal/repository/repository.go:20-21 | the SQN column |
| Auth.Store.AtomicGetAndIncrementSQN | internal/repository/repository.go:20-20 | returns the value before the add and adds in int64 |
| Auth.Store.ResyncSQN | internal/repository/repository.go:21-21 | overwrites an existing record's SQN |
| Auth.GenerateEUTRANVectors | internal/crypto/auth.go:40-97 | n vectors, made for the SQNs before + 32i, each of which the USIM whose K, OPc, AMF and profile the record spells in hex accepts, deriving the same keys; without a profile the library's results on Ki, OPc and AMF; the record advances by 32n once the inputs decode, and a well-provisioned record cannot fail |
| Auth.GenerateEAPAKAVector | internal/crypto/auth.go:141-194 | a quintuplet that the USIM spelled by the record accepts, at the SQN held before, or the library's on the same keys; the record advances by 32 |
| Auth.ResyncSQNFull | internal/crypto/auth.go:196-232 | with a profile, exactly the SQN for which the USIM spelled by the record sends this AUTS, and an error otherwise; without one, the library's result on AUTS, Ki, OPc and RAND |
| Auth.NumVectors | internal/diameter/s6a/air.go:94-100 | one vector when none are asked for, five when more are, as many as asked for in between |
| Auth.ResyncRecord | internal/diameter/s6a/air.go:76-90 | the column jumps to the reported SQN plus the margin exactly for a genuine AUTS of an existing record, and stays there if the reload fails |
| Auth.AIR | internal/diameter/s6a/air.go:72-118 | whole request: the clamped number of vectors, each accepted by the USIM the record was issued for; with an AUTS they start at that USIM's SQN plus 100, and an AUTS it did not send is refused and changes nothing; a failed reload leaves the column rewritten; the event advertises the SQN in hand plus 32 for each vector, which is the SQN stored if the request resynchronised or had read the current one; whatever the outcome, column, reserved SQNs and event are those of a run of the SQN machine |
| Auth.Generate5GAKAVector | internal/crypto/5gaka.go:33-87 | the terminal with the USIM spelled by the record accepts the vector and derives the same KAUSF and XRES* |
| Auth.ResyncAnd5GAKAVector | internal/crypto/5gaka.go:91-114 | succeeds exactly for an AUTS that the USIM spelled by the record sent, if the record can be reloaded, and returns a vector for that USIM at that very SQN; any other AUTS changes nothing; column and reserved SQNs are those of a run of the SQN machine |
| Auth.AdvancedOnceMore | internal/gsup/handlers.go:88-93 | reserving one SQN at a time adds up to reserving the block |
| Auth.HandleAIR | internal/gsup/handlers.go:71-117 | the answer encodes the clamped number of quintuplets, each accepted by the USIM the record was issued for at the next SQN; an error, as for a record gone meanwhile, leaves exactly what was reserved before it; whatever the outcome, it is a run of the SQN machine |
| S6c.StepInv | internal/diameter/s6c/alsc.go:58-143 | every step keeps each ALR in one stage, its deletion tied to one consumed 2001 |
| S6c.LeavesOnlyWhenCleared | internal/diameter/s6c/alsc.go:166-223 | in every run a record leaves only on an RSDS success for it, or once for an ALR sent for it whose session a 2001 took out |
| S6c.UnclearedStays | internal/diameter/s6c/alsc.go:121-131 | without a successful report for it and without a 2001 for a pending ALR sent for it, a record stays, whatever alerts fail and answers are lost, repeated or invented |
| S6c.UselessAnswers | internal/diameter/s6c/alsc.go:180-206 | an unknown or repeated answer, and one overtaking the registration of its session, is as if it had not come; a failed one only uses up its session |
| S6c.DistinctSessionsAreExact | internal/diameter/s6c/alsc.go:180-211 | with distinct session ids a 2001 deletes the record of its own ALR, once |
| S6c.CollidingSessionsMisdelete | internal/diameter/s6c/alsc.go:72-72 | with equal ids the answer for the earlier ALR deletes the later one's different record and leaves its own |
| S6c.MisdeletesIff | internal/diameter/s6c/alsc.go:180-211 | a success for an ALR's session removes a record other than its own exactly when the ALR waiting under that id was sent for another, still stored record |
| S6c.CollisionReachable | internal/diameter/s6c/alsc.go:58-134 | such a state is reached by two alerts |
| S6c.AppearsOnlyWhenStored | internal/diameter/s6c/alsc.go:121-126 | a record appears only by a stored report or an alert's metadata update |
| S6c.ClearedStays | internal/diameter/s6c/rsds.go:100-110 | a cleared record that is not returnable stays cleared and unreturnable until a new report |
| S6c.ReturnsIff | internal/diameter/s6c/alsc.go:58-134 | without a new report, a cleared record is stored again in some continuation exactly when an alert holds a copy it will send for or write back, or a report is past its check |
| S6c.NearReturns | internal/diameter/s6c/alsc.go:112-134 | whichever of the three holds it, the record can come back without losing another |
| S6c.HeldRecordReturns | internal/diameter/s6c/alsc.go:121-126 | an alert holding a copy puts the cleared record back |
| S6c.MostRecords | internal/diameter/s6c/rsds.go:123-158 | without new reports for a subscriber, the most records a continuation can store for it are exactly those stored or returnable |
| S6c.LimitSafeIff | internal/diameter/s6c/rsds.go:236-243 | the limit of ten is out of danger at every point of a run exactly when each list check is for a record stored or returnable, or finds fewer than ten such |
| S6c.RoomKeepsLimit | internal/diameter/s6c/rsds.go:236-243 | after a run whose checks find such room, stored and returnable records together are at most ten |
| S6c.IdleChecksHaveRoom | internal/diameter/s6c/rsds.go:123-134 | with no copy under way the code's own check is that one |
| S6c.OverlappingReportsExceedLimit | internal/diameter/s6c/rsds.go:123-158 | two overlapping reports at nine records leave eleven |
| S6c.AlertRouteExceedsLimit | internal/diameter/s6c/alsc.go:58-131 | without overlapping reports, an alert under way at ten records leaves eleven after a cleared and a new record |
| S6cHandlers.ReadNode | internal/diameter/s6c/rsds.go:208-220 | the last well-typed cause and diagnostic of one node outcome |
| S6cHandlers.ParseDeliveryOutcome | internal/diameter/s6c/rsds.go:180-227 | the first node outcome that names a cause, or none when all are silent |
| S6cHandlers.AlaResultCode | internal/diameter/s6c/alsc.go:230-251 | Result-Code first, else the first well-typed Experimental-Result-Code |
| S6cHandlers.SomeTriggerMatches | internal/diameter/s6c/alsc.go:152-161 | a stored record is woken by attach and reachability exactly with MNRF, by freed memory exactly with MCEF, hence always by some trigger |
| S6cHandlers.AlertKeepsReason | internal/diameter/s6c/alsc.go:121-126 | an attempt counts up and never changes why the record waits |
| S6cHandlers.Handlers.constructor | internal/diameter/s6c/rsds.go:28-28 | an empty table is sound |
| S6cHandlers.Handlers.ShouldReject | internal/diameter/s6c/rsds.go:236-243 | rejects exactly a new SC on a full list |
| S6cHandlers.Handlers.RecordsOf | internal/diameter/s6c/alsc.go:49-56 | the subscriber's records, each once |
| S6cHandlers.Handlers.RDSMR | internal/diameter/s6c/rsds.go:46-173 | exact answer and new table in every case, lookup and store errors included: memory full (cause 0) is stored and answered as 0x04 and wakes on freed memory, anything else as 0x02 and wakes on attach and reachability, for new and known SCs alike, with the SC's host, realm and other reported fields; never more than ten records an IMSI; a known SC is never refused |
| S6cHandlers.StoreTakesSetFields | internal/repository/postgres/store.go:655-677 | a record stored over an existing one replaces the fields that are set and keeps the others |
| S6cHandlers.Handlers.SendALR | internal/diameter/s6c/alsc.go:36-143 | exactly the records of the IMSI that match the trigger, whose SC is connected and takes the request, get one ALR and a session, and one attempt where the metadata update succeeds; no record is lost and no reason changes |
| S6cHandlers.Handlers.AlertRecords | internal/diameter/s6c/alsc.go:58-143 | the loop, record by record |
| S6cHandlers.Handlers.ALA | internal/diameter/s6c/alsc.go:166-223 | the session is used up whatever the code; only a 2001 deletes, only that session's record, and only if the store does |
| S6cHandlers.AlaIsRun | internal/diameter/s6c/alsc.go:180-211 | what ALA does is a run of the machine from one idle state to another |
| S6cHandlers.ClearIsRun | internal/diameter/s6c/rsds.go:100-110 | a successful report is such a run |
| S6cHandlers.ReportIsRun | internal/diameter/s6c/rsds.go:123-162 | a report past the list check is such a run, stored or not |
| S6cHandlers.AlertIsRun | internal/diameter/s6c/alsc.go:58-134 | one round of an alert is such a run, its metadata written or not; every handler keeps its object in step with the machine |
| S6cHandlers.PassingOverIsRun | internal/diameter/s6c/alsc.go:58-71 | a record read and passed over leaves the machine as it was |
| Gsup.Decode | internal/gsup/message.go:99-119 | the loop accepts and reads what the recursive grammar does |
| Gsup.Get | internal/gsup/message.go:122-129 | the first element with the tag |
| Gsup.GetAll | internal/gsup/message.go:132-140 | all elements with the tag |
| Gsup.AllIsFilter | internal/gsup/message.go:132-140 | they are found in order, part by part |
| Gsup.Builder.NewMsg | internal/gsup/message.go:148-150 | starts with the type octet alone |
| Gsup.Builder.Add | internal/gsup/message.go:153-157 | appends tag, length octet and value, and the buffer always encodes the elements added so far |
| Gsup.Builder.AddByte | internal/gsup/message.go:160-162 | the same for one octet |
| Gsup.DecodeInvertsBuilder | internal/gsup/message.go:99-162 | decoding gives the message back exactly when every element holds at most 255 octets |
| Gsup.BuilderInvertsDecode | internal/gsup/message.go:99-162 | re-encoding a decoded input gives it back but for at most one trailing octet |
| Gsup.DecodeAcceptsExactly | internal/gsup/message.go:99-119 | accepted inputs are exactly encodings followed by at most one octet |
| Gsup.IpaRead | internal/gsup/ipa.go:70-98 | length, protocol and body octets of one frame off the stream, the extension octet only for the GSUP protocols, or an error when it is incomplete |
| Gsup.IpaWriteGSUP | internal/gsup/ipa.go:104-115 | two length octets, protocol, extension 0x05 and payload, filled by offsets |
| Gsup.FrameRoundTrip | internal/gsup/ipa.go:70-115 | a written frame is read back, with the stream left at the next one, exactly when it fits 16 bits |
| Gsup.Derive2GKc | internal/gsup/handlers.go:130-136 | Kc is the exclusive or of the four halves |
| Gsup.NumVectors | internal/gsup/handlers.go:71-81 | the requested octet clamped to 1 to 5, 1 by default |
| Gsup.BuildTuple | internal/gsup/handlers.go:96-112 | the nested elements of one vector without the type octet |
| Gsup.AddVector | internal/gsup/handlers.go:96-112 | appends one vector's tuple to the response |
| Gsup.BuildSendAuthInfo | internal/gsup/handlers.go:83-113 | the result message for vectors already generated |
| Gsup.SendAuthInfoReadBack | internal/gsup/handlers.go:83-117 | framed, read and decoded, the result yields the IMSI and exactly the n tuples, each with seven elements: RAND under 0x20, SRES under 0x21, Kc under 0x22, IK under 0x23, CK under 0x24, AUTN under 0x25 and XRES under 0x27 |
| IdResp.ParseIDResp | internal/gsup/ipa.go:149-168 | the index walk reads what the recursive grammar does |
| IdResp.FirstNameRead | internal/gsup/ipa.go:149-168 | the first unit name is found behind any other tags |
| IdResp.PanicsIff | internal/gsup/ipa.go:155-161 | the slice fails exactly when a zero length is reached before a unit name |
| Tbcd.EncodeIMSI | internal/gsup/message.go:171-185 | the in-place loop packs the digits, odd lengths padded |
| Tbcd.DecodeIMSI | internal/gsup/message.go:188-199 | reads the halves, filler dropped |
| Tbcd.ImsiRoundTrip | internal/gsup/message.go:171-199 | decodeIMSI inverts encodeIMSI on digit strings of any length |
| Tbcd.PackedValues | internal/gsup/message.go:171-185 | each octet is the first digit plus 16 times the second, or 15 past the end |
| Tbcd.EncodeMSISDNBytes | internal/diameter/s6c/sri_sm.go:94-105 | packs two characters an octet, an F appended to odd lengths |
| Tbcd.DecodeMSISDN | internal/diameter/s6c/sri_sm.go:108-123 | unpacks and strips trailing filler |
| Tbcd.MsisdnRoundTripIff | internal/diameter/s6c/sri_sm.go:94-141 | the pair inverts exactly on strings of digits and inner F, all digit strings among them |
| Tbcd.MsisdnNibbles | internal/diameter/s6c/sri_sm.go:94-134 | digits pack as they do for an IMSI; F is filler and any other character a zero |
| Tbcd.ShDecodeTBCD | internal/diameter/sh/udr.go:209-222 | digits in order, filler dropped anywhere |
| Tbcd.ShAddressString | internal/diameter/sh/udr.go:227-238 | the length, TON/NPI, digits form always gives the digits |
| Tbcd.ShTonForm | internal/diameter/sh/udr.go:239-240 | the TON/NPI form gives the digits exactly when it does not pass for the length form |
| Tbcd.ShBareForm | internal/diameter/sh/udr.go:241-249 | the bare form gives the digits exactly when no leading octet passes for TON/NPI |
| Tbcd.ShSecondDigit | internal/diameter/sh/udr.go:246-250 | the first octet passes for TON/NPI exactly when the second digit is 8 or 9 |
| Tbcd.GsupEncodeMSISDN | internal/gsup/handlers.go:278-301 | 0x91 and packed digits, a leading plus dropped |
| Tbcd.GsupMsisdnReadBySh | internal/gsup/handlers.go:278-294 | what GSUP encodes the Sh decoder reads as the same digits, exactly for fewer than 289 digits or a second digit below 8 |
| Uli.PlmnRoundTrip | internal/diameter/cx/handlers.go:38-57 | decodePLMN inverts encodePLMN for two- and three-digit MNCs |
| Uli.PlmnReencode | internal/diameter/s6a/uli.go:109-124 | a received identity re-encodes to the octets received |
| Uli.PlmnOctets | internal/diameter/cx/handlers.go:38-57 | the three octets in digits of MCC and MNC |
| Uli.PlmnTooShort | internal/diameter/cx/handlers.go:38-48 | too few digits give 00 F1 10 |
| Uli.ParseULI | internal/diameter/s6a/uli.go:26-102 | the moving position reads what the grammar of section 8.21 of TS 29.274 does: accepted exactly when TAI or ECGI is announced and everything announced is there, with TAC, ECI, eNodeB and cell id as decimal numbers of the octets at the announced places |
| Uli.UliRoundTrip | internal/diameter/s6a/uli.go:26-102 | the printer is inverted for every combination of flags and any skipped contents; TAI's PLMN wins |
| Uli.TruncatedRefused | internal/diameter/s6a/uli.go:35-42 | no proper prefix of a printed location is accepted |
| Uli.EciComposed | internal/diameter/s6a/uli.go:80-95 | in every accepted input with an ECGI the printed ECI fits 28 bits and is 256 times the printed eNodeB id plus the printed cell id |
| Suci.DecodeMSINBCD | internal/udm/hnet.go:251-264 | both halves of each octet, but not a filler at the very end |
| Suci.MsinRoundTrip | internal/udm/hnet.go:251-264 | inverts high-half-first packing for odd and even lengths |
| Suci.PacksHighIs | internal/udm/hnet.go:251-264 | each octet of that packing is 16 times its first digit plus its second, or 15 |
| Suci.LowFirstPackingMisread | internal/udm/hnet.go:249-264 | low-half-first packing is read right exactly for even lengths of repeated pairs |
| Suci.DecryptInvertsConceal | internal/udm/hnet.go:82-149 | for a terminal that follows section C.3 of TS 33.501 (keys, counter block and MAC cut from the 64 derived octets, 32 or 33 octets of ephemeral key), de-concealment returns the MSIN exactly when the curve library takes the key, and an error otherwise |
| Suci.AcceptedIsConcealed | internal/udm/hnet.go:98-138 | anything accepted is what such a terminal would have sent, under a loaded key of the scheme, for what was read |
| Suci.ConcealedSuciParsed | internal/udm/suci.go:44-80 | the IMSI parsed from such a terminal's SUCI is MCC, MNC and MSIN |
| Suci.PlainSupiParsed | internal/udm/suci.go:32-65 | the null scheme and plain SUPI need no keys |
| Tft.ApplyTFTHandling | internal/diameter/gx/ccr.go:374-430 | in any mode but flip-permit-in nothing changes; in that mode exactly the permit-in rules are rewritten, to permit out with the parts before and after the first to exchanged and the options kept |
| Tft.IsFolds | internal/diameter/gx/ccr.go:379-395 | keywords are recognised in any mixture of cases |
| Tft.OptionWords | internal/diameter/gx/ccr.go:432-439 | the seven option words, in any case |
| Tft.ParseOfPrint | internal/diameter/gx/ccr.go:379-403 | a printed rule reads back as itself |
| Tft.RewriteReadsAsSwap | internal/diameter/gx/ccr.go:409-419 | the rewritten text reads as the swapped rule exactly when the rule is swappable |
| Tft.RewritePreservesMeaning | internal/diameter/gx/ccr.go:374-420 | for a swappable rule the out rule matches a packet exactly when the in rule matches the reversed one |
| Tft.RewriteChangesMeaning | internal/diameter/gx/ccr.go:388-403 | for the others a packet and a matching relation tell them apart |
| Tft.RewriteIdempotent | internal/diameter/gx/ccr.go:374-430 | a second application changes nothing |
| Tft.WellFormedRewritten | internal/diameter/gx/ccr.go:374-420 | a printed in rule whose parts may change places is rewritten to its swap, which reads back as the swap |
| Interlocks.SplitTrim | internal/diameter/gx/ccr.go:465-474 | trimming and dropping blanks loses no id |
| Interlocks.ResolveRuleIds | internal/diameter/gx/ccr.go:245-254 | the ids the list spells, none for an absent list |
| Interlocks.LikeIsContains | internal/api/interlocks.go:19-22 | LIKE with a literal between percent signs is a substring test |
| Interlocks.WrappedOccurrence | internal/api/interlocks.go:19-22 | in a comma-wrapped list the wrapped token occurs exactly when it is a part |
| Interlocks.GuardIsExactSpelling | internal/api/interlocks.go:19-22 | the guard holds exactly when some entry is spelled as Itoa spells the id |
| Interlocks.GuardImpliesRead | internal/api/interlocks.go:19-22 | the guard never reports an id the readers do not see |
| Interlocks.GuardExactIff | internal/api/interlocks.go:19-22 | guard and readers agree on every id exactly when no entry is misspelled |
| Interlocks.GuardExactOnWrittenLists | internal/diameter/gx/ccr.go:249-254 | on comma-joined decimal ids, none included, both are membership |
| Interlocks.BlankHidesId | internal/api/interlocks.go:20-21 | a blank after a comma hides an id from the guard only |
| Rollback.UlpBounds | internal/api/operation_log.go:150-162 | the spacing used is that of the float64 values around n |
| Rollback.RoundNatNearest | internal/api/operation_log.go:150-162 | rounding picks a nearest float64, and is exact exactly on float64 values |
| Rollback.RoundExactIff | internal/api/operation_log.go:150-162 | everything within 2^53 is exact |
| Rollback.ThroughJsonExactIff | internal/api/operation_log.go:153-162 | a column value survives JSON and normalizeJSON exactly when it is a float64 integer or no number |
| Rollback.RollbackUndoes | internal/api/operation_log.go:82-115 | rolling back the operation just logged restores all tables exactly when the values sent through JSON qualify, and with which outcome |
| Rollback.UndoStatus | internal/api/operation_log.go:82-117 | for any entry: when a rollback succeeds, is refused as unprocessable or fails, and that only a successful one changes its table |
| Rollback.LogIsNewest | internal/api/audit.go:172-196 | after any run the log holds precisely the newest 100 entries |
| Rollback.RollingBackRestores | internal/api/operation_log.go:56-118 | rolling back the newest k entries, newest first, restores the tables k operations earlier, for every k the log holds |
| Rollback.SmallRecoverable | internal/api/operation_log.go:150-162 | with integers within 2^53 that always applies |
| RollbackServer.BuildSetClause | internal/api/operation_log.go:122-134 | every column but the key, once, in string order, with its value from JSON |
| RollbackServer.BuildInsertClause | internal/api/operation_log.go:137-148 | every column, once, in string order, with its value from JSON |
| RollbackServer.SortedKeys | internal/api/operation_log.go:164-171 | the columns of a row in string order, each once |
| RollbackServer.SetRow | internal/api/operation_log.go:96-99 | the row the UPDATE leaves |
| RollbackServer.NewRow | internal/api/operation_log.go:107-109 | the row the INSERT makes |
| RollbackServer.Server.constructor | internal/api/audit.go:52-59 | starts with an empty log |
| RollbackServer.Server.WriteLog | internal/api/audit.go:174-196 | appends and prunes to the newest 100 with consecutive ids |
| RollbackServer.Server.Write | internal/api/audit.go:70-170 | one audited write changes the row and logs it with its states before and after |
| RollbackServer.Server.Find | internal/api/operation_log.go:57-63 | finds exactly the entries the log still holds |
| RollbackServer.Server.Rollback | internal/api/operation_log.go:56-118 | not found, or the reversal of the entry; the log itself never changes |
| Text.AtoiOfItoa | internal/api/interlocks.go:20-20 | reading a printed id gives the id |
| Text.ItoaAppends | internal/api/interlocks.go:20-20 | digits stand highest first |
| Text.AtoiIs | internal/udm/suci.go:52-60 | digits with an optional sign are read, within int64 |
| Text.JoinPeels | internal/diameter/gx/ccr.go:419-419 | parts are joined in order with one separator between them |
| Text.TrimSpaceIs | internal/diameter/gx/ccr.go:465-474 | trimming takes off white space at both ends, all of it and nothing else |
| Text.SpacesOfUnicode | internal/diameter/gx/ccr.go:379-379 | what counts as white space |
| Text.FieldsPeels | internal/diameter/gx/ccr.go:379-379 | words are read from the left, whatever white space surrounds them |
| Text.SplitOfJoin | internal/diameter/gx/ccr.go:465-466 | splitting inverts joining |
| Text.FieldsOfJoin | internal/diameter/gx/ccr.go:379-419 | fields of joined words are the words |
| Text.DecodeOfEncodeHex | internal/udm/suci.go:71-71 | hexadecimal decoding inverts encoding |
| Text.EncodeHexIs | internal/udm/suci.go:71-71 | two digits a byte, the high half first |
| Text.HexCases | internal/crypto/auth.go:41-52 | capitals read like small letters, and no other character is read |

## Left out

- Auth.Store.AtomicGetAndIncrementSQN: returns the record before the add, as its callers take it; what GORM writes back into the loaded struct is only followed up in BlocksFromAfterOverlap, and database errors are not modelled.
- Auth.AIR: roaming, subscriber and PLMN lookups before the SQN part are not modelled; the order of interleaved requests is in SqnRuns. A resynchronisation of a record without a profile is not tied to the SQN machine, as the library parameter may recover any number; the same holds for ResyncAnd5GAKAVector.
- Auth.GenerateEUTRANVectors: a record without a profile only gets its SQN arguments and results tied to the library parameter.
- Auth.ProfileRotates: rotations are not negative; the API stores only 0 to 127 (internal/api/algorithm_profile.go:140), though decodeProfile by itself would let negative ones through.
- S6cHandlers.Handlers.SendALR: AVPs of the request other than session, destination and key are not modelled.
- S6c.Load: one record at a time instead of all of a subscriber's at once, which allows every interleaving the loop has and more.
- Rollback.RollbackUndoes: columns hold null, integers, text, booleans and timestamps, which are all the kinds internal/models/models.go has; that the database reads a timestamp back from its RFC 3339 text is taken for granted, and rows that are nothing but a key are not modelled.
- Rollback.ToInt64: the conversion of 2^63 to int64 is platform-defined in Go; the model takes the smallest int64.
- Tft.ApplyTFTHandling: the substitution of the UE address in rule texts is not modelled.
- GeoredMerge.Replica.ApplyEvent: events other than SQN updates (serving nodes, Gx sessions, OAM) are not modelled, and the guard and its write are one step.
- GeoredQueue: push is reduced to success or failure; JSON, HTTP and peer health texts are not modelled.
- Suci: ECDH, HKDF, HMAC and AES-CTR are parameters; Go's crypto/ecdh package is not part of this model.
- Sockets, TLS, Diameter encoding and dictionaries, routing, configuration, logging and metrics.
- Cx, SLh, Zh, SWx, Rx and UDM handler bodies, PCF associations, the TAC cache, JWT checks and the web UI: lookups with one branch.
