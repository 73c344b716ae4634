# Verification of the AMF's stateful core

A Dafny model of the state that the AMF of nextgcore keeps, with proofs about every run of it:

- **NAS security channel** (`NasSecurity`, `NasChannel`): COUNT handling, replay protection and ciphering of one UE
  (section 4.4.3 of TS 24.501). MAC and keystream are parameters, so every theorem holds for all of them; ciphering is
  exclusive-or with the keystream (`Octets`).
- **AMF context** (`HashIndex`, `AmfStore`, `AmfStoreProofs`, `AmfStoreLifecycle`, `AmfContext`): the gNB, RAN UE, UE and
  session tables, their five hashes, generators and limits. An operation is one critical section, so a removal that
  the source does under several locks one after the other is several operations that others may come between. The
  class `AmfContext.Context` holds the fields, grouped by table, and the methods; each method is proved to do what a
  function on table values does, the run theorems are about those functions, and the invariant `Valid()` that they
  give holds after the constructor and every method; a whole-record update keeps it exactly when the record carries
  the keys it is filed under.
- **Lock order** (`LockOrder`, `LockFootprint`): the lock nests of the context's methods as programs of threads under
  reader-writer locks, and the data behind the locks: operations whose sections overlap in time commute.
- **Multicast sessions** (`MbsSession`, `MbsProofs`, `MbsContext`): one session state derived from the answers of many
  gNBs, and the TMGI index.
- **Paging, subscriptions and queues** (`NamfHandler`, `Paging`, `N1n2Registry`, `SubscriptionLifecycle`,
  `EgressQueues`).
- **Codecs** (`IdentityCodec`, `GprsTimer3`, `Diameter`).

A run is a sequence of operations; `After(s, run, n)` is the state after the first n. Theorems about runs quantify over
the start state, the run and n. Properties that the code does not have in general are stated with the exact condition
under which it has them, and with a run where it fails (`LossLimitIsTight`, `ShortRenewalReplays`,
`RenewingFrameReplays`, `EncoderResetKeepsBaseline`, `DuplicateAddressHidesGnb`, `UpdateMisfilesGnb`,
`UpdateMisfilesUe`, `SessionOfNobody`, `FoundUnderFormerKey`, `RemovalGapDropsSubscription`, `SubscriptionOfNobody`,
`RenamedUeLeaks`, `UpdateSharesNgapId`, `LoadCanExceedLimit`, `UnaskedAnswerStrands`, `DuplicateTmgiHidesSession`, `SharedIdIsAmbiguous`).

Clocks, the iteration order of hash maps and the contents of fields that no operation looks at are parameters.

Where code and documentation differ, the model follows the code:

- `context.rs` documents fixed capacity limits; limits can be lowered below the tables by a second `init` after `fini`.
- `n1n2_subscription_find_any_n2` is documented as deterministic; it is so exactly when no two different matches share
  the greatest id. Its ids come from `src/bins/nextgcore-amfd/src/namf_server.rs` (line 1732), the only
  production caller that subscribes, which mints a UUID for each, so `DistinctIdsSuffice` applies there.
- `amf_ue_remove` is documented to keep the subscription registry from leaking across UE lifetimes; it does so exactly
  under the condition of `RegistryStaysAnchoredIff`.
- `fuzz_diameter_message.rs` moves an AVP's data into the result before the test for grouped AVPs reads it; the model
  takes the test to read the same octets.

## Model
| member | source | states |
|---|---|---|
| NasChannel.LossyChannelSynchronises | src/bins/nextgcore-amfd/src/nas_security.rs:283-406 | For every choice of MAC and keystream: a peer whose COUNTs go up by one, an order-preserving channel that loses at most 254 frames in a row, COUNT below 2^24: every delivered frame opens to exactly the body protected, or is refused as empty exactly when it is ciphered and empty, and in both cases the receiver's uplink COUNT equals the sender's |
| NasChannel.ChannelIsRightIff | src/bins/nextgcore-amfd/src/nas_security.rs:283-406 | With genuine frames of all four protected types and hostile frames of every header type mixed in anywhere, none of which verifies under a COUNT open to the receiver: protected hostile frames are refused, unprotected ones handed through as they are, and all genuine frames come out right if and only if each genuine COUNT is within reach of what the receiver stores when it arrives, which is nothing when its own header renews the context |
| NasChannel.HarmlessNoise | src/bins/nextgcore-amfd/src/nas_security.rs:283-406 | When none of the hostile frames carries a renewing header (type 3 or 4), this depends on the genuine COUNTs and headers alone: the noise costs the genuine frames nothing |
| NasChannel.LossLimitIsTight | src/bins/nextgcore-amfd/src/nas_security.rs:325-350 | After 255 losses in a row the next genuine frame is refused, so 254 is the exact limit |
| NasChannel.RenewingRefusalReopens | src/bins/nextgcore-amfd/src/nas_security.rs:295-350 | A type 3 or 4 frame clears COUNT and baseline even when it is refused; after it a frame of the running context opens if and only if its COUNT is below 256, whether it was delivered before or not |
| NasChannel.ShortRenewalReplays | src/bins/nextgcore-amfd/src/nas_security.rs:295-318 | So a copy of the last delivered frame, refused as a replay, is delivered again after one frame of type 3 that is shorter than seven octets and refused as such |
| NasChannel.RenewingFrameReplays | src/bins/nextgcore-amfd/src/nas_security.rs:295-350 | A genuine frame of type 3 or 4 opens at every point of every run if and only if its COUNT is below 256, however often it was delivered before |
| NasChannel.ReplaySafety | src/bins/nextgcore-amfd/src/nas_security.rs:343-387 | Over every run of uplink frames and downlink messages of every header type: between two accepted frames with no renewing header after the first up to the second, the committed COUNT strictly increases; each verifies under the COUNT it commits, so a frame accepted twice verifies under two different COUNTs with the same low octet |
| NasChannel.AtMostModulusAccepted | src/bins/nextgcore-amfd/src/nas_security.rs:343-387 | As long as the context is not renewed, at most 2^24 frames are accepted |
| NasChannel.CandidateIsLeast | src/bins/nextgcore-amfd/src/nas_security.rs:326-336 | The estimated COUNT carries the received SQN; it falls below the stored COUNT exactly on a 24-bit wrap, and otherwise is the least COUNT from the stored one on with that SQN |
| NasChannel.CandidateRecovers | src/bins/nextgcore-amfd/src/nas_security.rs:326-336 | The estimate is the sender's COUNT if and only if the sender is 0 to 255 ahead modulo 2^24 |
| NasChannel.WrappedCountIsRefused | src/bins/nextgcore-amfd/src/nas_security.rs:343-350 | Once a baseline exists a frame whose estimate has wrapped is refused and nothing but the failure mark changes |
| NasChannel.RefusalKeepsCount | src/bins/nextgcore-amfd/src/nas_security.rs:295-375 | A MAC, replay or length refusal keeps COUNT and baseline if and only if the header does not renew the context (or they were already clear), and changes nothing else but the failure mark, which a MAC or replay refusal sets and a length refusal leaves |
| NasChannel.CommitIsVerified | src/bins/nextgcore-amfd/src/nas_security.rs:295-387 | For all four protected header types the COUNT moves only for a frame whose MAC verifies under the new COUNT, which carries the frame's SQN and lies beyond the baseline left by a renewing header; any other frame leaves COUNT and baseline as the header left them |
| NasChannel.UnprotectedPasses | src/bins/nextgcore-amfd/src/nas_security.rs:283-314 | Header types 0 and 5 upwards hand the frame through and touch nothing |
| NasChannel.UncheckedFrameOpens | src/bins/nextgcore-amfd/src/nas_security.rs:303-406 | With null integrity and a cipher nothing is checked: the estimated COUNT is taken over, the replay baseline stays, and the payload is deciphered under that COUNT |
| NasChannel.UnsecuredPasses | src/bins/nextgcore-amfd/src/nas_security.rs:290-314 | Without a security context or under null algorithms the frame is handed through whatever its header; only a new-context header within a context still clears COUNT and baseline |
| NasChannel.PeerFrameOpens | src/bins/nextgcore-amfd/src/nas_security.rs:1923-1952 | A peer frame of any of the four protected types whose COUNT is within reach of what its header leaves stored opens to its body, or is refused as empty exactly when it is ciphered and empty, and sets the COUNT to the sender's |
| NasChannel.PeerFrameOpensIff | src/bins/nextgcore-amfd/src/nas_security.rs:295-387 | Being within reach is also necessary, for every MAC function, keystream and protected type |
| NasChannel.EmptyPayloadCommits | src/bins/nextgcore-amfd/src/nas_security.rs:382-394 | A ciphered frame without payload is refused only after its COUNT and the baseline have been committed |
| NasChannel.EncoderResetKeepsBaseline | src/bins/nextgcore-amfd/src/nas_security.rs:169-172 | After a new-context downlink message the peer's first frame (COUNT 0) opens if and only if no baseline had been set before: the encoder zeroes the uplink COUNT but keeps the baseline |
| NasChannel.RenewalStartsOver | src/bins/nextgcore-amfd/src/nas_security.rs:169-172 | A new-context downlink message goes out under COUNT 0 and leaves downlink COUNT 1, uplink COUNT 0 and everything else as it was |
| NasChannel.CountSinceRenewal | src/bins/nextgcore-amfd/src/nas_security.rs:153-237 | In every sequence of downlink messages of every header type, the COUNT of a message is the number of messages since the last new-context header that were not plain, modulo 2^24 |
| NasChannel.CountWithoutRenewal | src/bins/nextgcore-amfd/src/nas_security.rs:153-237 | Before the first new-context header it is counted on from the stored COUNT |
| NasChannel.DownlinkCountsAreUnique | src/bins/nextgcore-amfd/src/nas_security.rs:153-237 | Each message that is not plain is the frame of its COUNT with its low octet as SQN; two of them with no new-context header after the first up to the second share a COUNT if and only if the COUNTs used between them are a multiple of 2^24 |
| NasChannel.FrameReadsBack | src/bins/nextgcore-amfd/src/nas_security.rs:186-237 | A frame is 0x7e, the header type, the MAC, the low octet of the COUNT and the payload, in either direction: the MAC is the one of the COUNT over SQN and payload (all zero beyond types 1 to 4), and applying the cipher again for types 2 and 4 gives the body |
| NasSecurity.EncryptCancels | src/bins/nextgcore-amfd/src/nas_security.rs:635-714 | Applying the cipher twice with the same COUNT, key, bearer and direction gives the message back |
| NasSecurity.CipherTurnsBits | src/bins/nextgcore-amfd/src/nas_security.rs:635-714 | Under algorithms 1 to 3 bit j of octet i is turned exactly when that bit of the keystream for the cipher key, COUNT, bearer (1 for access type 0) and direction is set; under any other algorithm nothing is |
| NasSecurity.UeSecurity.Encode | src/bins/nextgcore-amfd/src/nas_security.rs:153-237 | A plain message is returned as it is and changes nothing; any other becomes the downlink frame of COUNT 0 after a new-context header and of the stored COUNT otherwise, and leaves the next COUNT modulo 2^24, a context, and the uplink COUNT zeroed by a new-context header only |
| NasSecurity.UeSecurity.Decode | src/bins/nextgcore-amfd/src/nas_security.rs:283-406 | The decoder's outcome and new state are those of the specification on which the run theorems rest, on every branch |
| NasSecurity.UeSecurity.ApplyCipher | src/bins/nextgcore-amfd/src/nas_security.rs:635-714 | The loop over the octets computes the ciphering that CipherTurnsBits describes bit by bit |
| NasSecurity.UeSecurity.ComputeMac | src/bins/nextgcore-amfd/src/nas_security.rs:716-790 | The MAC function of algorithms 1 to 3 on the integrity key, COUNT, bearer, direction and data, and four zero octets for any other algorithm |
| AmfStoreProofs.IndexesStaySound | src/bins/nextgcore-amfd/src/context.rs:737-842 | Over every run, whatever keys callers reuse, records are filed under their own issued ids and every entry of the address, gNB-id, SUCI, SUPI and GUTI hashes points to a live record carrying exactly that key; whole-record updates keep the keys |
| AmfStoreProofs.LookupsStayExactIff | src/bins/nextgcore-amfd/src/context.rs:1119-1168 | Lookup equals scan in every state of a run if and only if each key is given to a record only while no other live record holds it (GUTIs set are not the default one) |
| AmfStoreProofs.DuplicateAddressHidesGnb | src/bins/nextgcore-amfd/src/context.rs:737-775 | A run where it fails: a gNB that connects again before its old record is removed is live and not found under its address |
| AmfStoreProofs.LookupsAreScans | src/bins/nextgcore-amfd/src/context.rs:1089-1116 | With exact indexes each of the five lookups names the only live holder of the key, and misses exactly when there is none |
| AmfStoreProofs.StepExactIff | src/bins/nextgcore-amfd/src/context.rs:826-842 | One operation keeps lookup equal to scan if and only if the key it gives out is free |
| AmfStoreProofs.GnbUpdateSoundIff | src/bins/nextgcore-amfd/src/context.rs:845-852 | A whole gNB record written past the hashes keeps them sound if and only if it still carries every key it is filed under |
| AmfStoreProofs.UpdateMisfilesGnb | src/bins/nextgcore-amfd/src/context.rs:845-852 | A run where it fails: an update with another address leaves the old address pointing to the gNB |
| AmfStoreProofs.UeUpdateSoundIff | src/bins/nextgcore-amfd/src/context.rs:1171-1178 | The same for a UE record and its three hashes |
| AmfStoreProofs.UpdateMisfilesUe | src/bins/nextgcore-amfd/src/context.rs:1171-1178 | A run where it fails: an update without the SUPI leaves the SUPI filed |
| HashIndex.RekeyComplete | src/bins/nextgcore-amfd/src/context.rs:1119-1134 | Dropping the old entry and writing the new one keeps an exact index exact if and only if no other live record holds the key |
| AmfStoreLifecycle.FindSpansLifetime | src/bins/nextgcore-amfd/src/context.rs:795-817 | A finder that drops the hash lock before it locks the table returns, whatever ran in between, the record that carried the key when the hash was read, live under the same id ever since; it still carries the key if and only if the last write of such a key into it in between, if any, wrote the same one |
| AmfStoreLifecycle.FoundUnderFormerKey | src/bins/nextgcore-amfd/src/context.rs:1099-1152 | A run where it does not: a UE found by a SUPI that it has given up between the two reads |
| AmfStoreLifecycle.ParentsStayLiveIff | src/bins/nextgcore-amfd/src/context.rs:864-909 | Every RAN UE's gNB and every session's UE is live in every state of a run, also between the lock sections of a removal, if and only if children are only given live parents and parents are only taken away without children |
| AmfStoreLifecycle.SessionOfNobody | src/bins/nextgcore-amfd/src/context.rs:1220-1237 | A run where it fails: a session added to a UE that does not exist |
| AmfStoreLifecycle.OrphanSessionsArePending | src/bins/nextgcore-amfd/src/context.rs:1013-1074 | In every run that names live parents, a session whose UE is not live belongs to a removal under way: the UE was taken and the section that drops its sessions has not run since |
| AmfStoreLifecycle.OrphanRanUesArePending | src/bins/nextgcore-amfd/src/context.rs:778-793 | The same for RAN UEs: only the removal of all gNBs leaves orphans, until its second section |
| AmfStoreLifecycle.ParentsLiveBetweenCalls | src/bins/nextgcore-amfd/src/context.rs:1013-1074 | If children were only given live parents and every removal under way has run its later section, every parent is live |
| AmfStoreLifecycle.RemovalIsExact | src/bins/nextgcore-amfd/src/context.rs:1013-1046 | Removing a live gNB or UE, all sections run, removes exactly its RAN UEs or sessions, unchanged otherwise |
| AmfStoreLifecycle.DeassociateUndoesAssociate | src/bins/nextgcore-amfd/src/context.rs:1181-1208 | Associating links two live records to each other and touches no other; deassociating restores the tables if and only if both were unlinked before |
| AmfStoreLifecycle.IdsNeverReissued | src/bins/nextgcore-amfd/src/context.rs:727-730 | Pool ids and AMF-UE-NGAP-IDs are issued in strictly increasing order over every run, fini and init included |
| AmfStoreLifecycle.RanUeCarriesIssued | src/bins/nextgcore-amfd/src/context.rs:864-886 | A new RAN UE carries the pool id and the AMF-UE-NGAP-ID issued for it, the gNB and the RAN-UE-NGAP-ID given |
| AmfStoreLifecycle.NgapIdsStayDistinctIff | src/bins/nextgcore-amfd/src/context.rs:864-971 | In every state of a run no two live RAN UEs share an AMF-UE-NGAP-ID and all of them were issued, if and only if whole-record updates never write one that was not issued or that another RAN UE has |
| AmfStoreLifecycle.UpdateSharesNgapId | src/bins/nextgcore-amfd/src/context.rs:964-971 | From every state with two RAN UEs, an update where it fails |
| AmfStoreLifecycle.DeadStaysDead | src/bins/nextgcore-amfd/src/context.rs:1013-1045 | A record that is gone never comes back under its id |
| AmfStoreLifecycle.RunWithinLimitsIff | src/bins/nextgcore-amfd/src/context.rs:690-707 | No table exceeds its limit in any state of a run if and only if no initialisation that takes effect sets a limit below a table |
| AmfStoreLifecycle.LoadStaysPercentage | src/bins/nextgcore-amfd/src/context.rs:1725-1733 | In such runs the UE load is between 0 and 100 |
| AmfStoreLifecycle.LoadCanExceedLimit | src/bins/nextgcore-amfd/src/context.rs:690-720 | Five operations after which the UE load reads 200: UEs added after fini, then init with a smaller limit |
| AmfContext.Context.Initialise | src/bins/nextgcore-amfd/src/context.rs:690-707 | Sets the limits (twice as many RAN UEs as UEs) once, and nothing when already initialised |
| AmfContext.Context.Finalise | src/bins/nextgcore-amfd/src/context.rs:710-720 | Clears both families of tables and all five hashes; generators and limits stay |
| AmfContext.Context.NextAmfUeNgapId | src/bins/nextgcore-amfd/src/context.rs:728-730 | Returns the generator's value and steps it |
| AmfContext.Context.AddGnb | src/bins/nextgcore-amfd/src/context.rs:737-754 | Adds a gNB with an id no live gNB has, under its address, or refuses exactly at the limit; keeps the invariant |
| AmfContext.Context.RemoveGnb | src/bins/nextgcore-amfd/src/context.rs:757-775 | Removes the gNB, its hash entries and its RAN UEs; nothing for an unknown id |
| AmfContext.Context.RemoveAllGnbs | src/bins/nextgcore-amfd/src/context.rs:778-793 | Empties the gNB table, both hashes and the RAN UE table |
| AmfContext.Context.FindGnbByAddr | src/bins/nextgcore-amfd/src/context.rs:800-807 | A hit is a live gNB with that address, in every valid context; with exact hashes it is the only one, and a miss means there is none |
| AmfContext.Context.FindGnbByGnbId | src/bins/nextgcore-amfd/src/context.rs:810-817 | The same for the gNB id of the gNBs that have one |
| AmfContext.Context.SetGnbId | src/bins/nextgcore-amfd/src/context.rs:826-842 | Moves the gNB's hash entry from its old id to the new one |
| AmfContext.Context.UpdateGnb | src/bins/nextgcore-amfd/src/context.rs:845-852 | Replaces the record and leaves the hashes alone; the invariant survives if and only if the record carries every key it is filed under |
| AmfContext.Context.AddRanUe | src/bins/nextgcore-amfd/src/context.rs:864-886 | Adds a RAN UE with the pool id and AMF-UE-NGAP-ID issued by the generators, the 32-bit index, the given RAN-UE-NGAP-ID and gNB and no UE, or refuses exactly at the limit; keeps the invariant |
| AmfContext.Context.RemoveRanUe | src/bins/nextgcore-amfd/src/context.rs:889-902 | Removes and returns the RAN UE |
| AmfContext.Context.RemoveRanUesOfGnb | src/bins/nextgcore-amfd/src/context.rs:905-909 | Keeps exactly the RAN UEs of other gNBs |
| AmfContext.Context.UpdateRanUe | src/bins/nextgcore-amfd/src/context.rs:964-971 | Replaces a live RAN UE's record |
| AmfContext.Context.SwitchRanUe | src/bins/nextgcore-amfd/src/context.rs:974-981 | Moves a live RAN UE to another gNB |
| AmfContext.Context.AddUe | src/bins/nextgcore-amfd/src/context.rs:993-1010 | Adds a UE with the issued id, the given RAN UE, no SUCI or SUPI and an all-zero GUTI, or refuses exactly at the limit; keeps the invariant |
| AmfContext.Context.RemoveUe | src/bins/nextgcore-amfd/src/context.rs:1013-1046 | Removes the UE and its hash entries, then its sessions, and with its SUPI its N1N2 subscriptions and LCS correlation; nothing for an unknown id; keeps the invariant |
| AmfContext.Context.RemoveAllUes | src/bins/nextgcore-amfd/src/context.rs:1049-1074 | Empties the UE table, its hashes, the sessions, the subscriptions and the correlations |
| AmfContext.Context.FindUeBySuci | src/bins/nextgcore-amfd/src/context.rs:1089-1096 | A hit is a live UE with that SUCI, in every valid context; with exact hashes the only one, and a miss means there is none |
| AmfContext.Context.FindUeBySupi | src/bins/nextgcore-amfd/src/context.rs:1099-1106 | The same for the SUPI |
| AmfContext.Context.FindUeByGuti | src/bins/nextgcore-amfd/src/context.rs:1109-1116 | The same for a GUTI; a miss is conclusive for every GUTI but the default one |
| AmfContext.Context.SetUeSuci | src/bins/nextgcore-amfd/src/context.rs:1119-1134 | Moves the UE's hash entry from its old SUCI to the new one |
| AmfContext.Context.SetUeSupi | src/bins/nextgcore-amfd/src/context.rs:1137-1152 | The same for the SUPI |
| AmfContext.Context.UpdateUeGuti | src/bins/nextgcore-amfd/src/context.rs:1155-1168 | The same for the GUTI, dropping the entry of whatever GUTI the UE carried |
| AmfContext.Context.UpdateUe | src/bins/nextgcore-amfd/src/context.rs:1171-1178 | The same for a UE |
| AmfContext.Context.AssociateRanUe | src/bins/nextgcore-amfd/src/context.rs:1181-1194 | Links the two records only when both are live |
| AmfContext.Context.DeassociateRanUe | src/bins/nextgcore-amfd/src/context.rs:1197-1208 | Unlinks each record that is live |
| AmfContext.Context.GetUeLoad | src/bins/nextgcore-amfd/src/context.rs:1725-1733 | The used share of the UE limit in whole percent, rounded down, 0 without a limit, at most 100 within the limit |
| AmfContext.Context.AddSess | src/bins/nextgcore-amfd/src/context.rs:1220-1237 | Adds a session with a new id, or refuses exactly at the limit |
| AmfContext.Context.RemoveSess | src/bins/nextgcore-amfd/src/context.rs:1240-1253 | Removes and returns the session |
| AmfContext.Context.UpdateSess | src/bins/nextgcore-amfd/src/context.rs:1291-1298 | Replaces a live session's record |
| AmfContext.Context.PagingAdd | src/bins/nextgcore-amfd/src/context.rs:1320-1333 | Files the entry under its UE, replacing an earlier one; keeps the invariant |
| AmfContext.Context.PagingRemove | src/bins/nextgcore-amfd/src/context.rs:1336-1348 | Removes and returns the UE's entry |
| AmfContext.Context.PagingRetransmit | src/bins/nextgcore-amfd/src/context.rs:1391-1413 | Counts a retransmission and succeeds exactly when the entry exists and has one left |
| AmfContext.Context.PagingExpire | src/bins/nextgcore-amfd/src/context.rs:1416-1431 | Splits the table into the entries at least one second older than the timeout in whole seconds, returned, and the others, kept |
| AmfContext.Context.N1n2SubscriptionAdd | src/bins/nextgcore-amfd/src/context.rs:1555-1569 | Appends the subscription unless its id is taken within the UE |
| AmfContext.Context.N1n2SubscriptionRemove | src/bins/nextgcore-amfd/src/context.rs:1573-1588 | Removes the subscription with that id, and the UE's list when it becomes empty |
| AmfContext.Context.PositioningDlDrain | src/bins/nextgcore-amfd/src/context.rs:1366-1371 | Hands over the whole queue and leaves it empty |
| AmfContext.Context.NetworkDeregDrain | src/bins/nextgcore-amfd/src/context.rs:1383-1388 | The same for the deregistration queue |
| LockOrder.NoDeadlock | src/bins/nextgcore-amfd/src/context.rs:737-842 | However many threads run whatever calls and however they were scheduled: while one is unfinished some thread can move, even if readers queue behind waiting writers |
| LockOrder.ExecutionsEnd | src/bins/nextgcore-amfd/src/context.rs:1012-1116 | Every execution is bounded by a fixed amount of work, and one that cannot go on has finished every call |
| LockOrder.CallsAreRanked | src/bins/nextgcore-amfd/src/context.rs:1181-1208 | Every call takes its nested locks in one rank order; finders drop the hash lock before they lock the table |
| LockOrder.ExecutedIsExclusive | src/bins/nextgcore-amfd/src/context.rs:737-842 | In every reachable state a lock held for writing has one holder |
| LockFootprint.SectionsAreNests | src/bins/nextgcore-amfd/src/context.rs:737-793 | Every operation of the store is a nest of locks of the call it is a section of |
| LockFootprint.WritesUnderLock | src/bins/nextgcore-amfd/src/context.rs:737-852 | An operation changes only what it holds the write lock of |
| LockFootprint.ReadsUnderLock | src/bins/nextgcore-amfd/src/context.rs:1012-1208 | What an operation writes depends only on what it holds a lock of, the limits, and the AMF-UE-NGAP-ID generator if it draws from it |
| LockFootprint.OverlappingSectionsCommute | src/bins/nextgcore-amfd/src/context.rs:737-1208 | However the threads were scheduled, two operations that are inside their sections at the same time commute, unless both draw AMF-UE-NGAP-IDs |
| MbsProofs.ActivationIsOrderIndependent | src/bins/nextgcore-amfd/src/ngap_mcast.rs:210-308 | Distinct new targets that each answer once leave the same session in every order: earlier gNBs as they were, then each target Active with the TEID it answered or Inactive without one; only the last answer returns true; a session without earlier gNBs ends Active if and only if a target succeeded |
| MbsProofs.AnswersAreTaken | src/bins/nextgcore-amfd/src/ngap_mcast.rs:277-291 | An answer makes the first context of its gNB Active with the given TEID on success, Inactive with its own TEID on failure or deactivation, and changes no other context |
| MbsProofs.DeactivationIsOrderIndependent | src/bins/nextgcore-amfd/src/ngap_mcast.rs:315-373 | From a settled session with an Active gNB, when each gNB asked has answered, in any order, the session and all gNBs are Inactive with nothing else changed, and only the last answer returns true |
| MbsProofs.SessionLife | src/bins/nextgcore-amfd/src/ngap_mcast.rs:210-373 | The whole life of a session: targets answer in any order with at least one success, deactivation asks exactly those that succeeded, and after their answers in any order session and gNBs are Inactive |
| MbsProofs.ActiveIdsAreActive | src/bins/nextgcore-amfd/src/ngap_mcast.rs:330-336 | The gNBs asked to deactivate are exactly the Active ones |
| MbsProofs.DeactivationAsksIff | src/bins/nextgcore-amfd/src/ngap_mcast.rs:326-336 | Deactivation asks somebody if and only if some gNB is Active; otherwise the session waits in Deactivating with nobody asked |
| MbsProofs.RunsAreCoherent | src/bins/nextgcore-amfd/src/ngap_mcast.rs:226-308 | In every run, with duplicate and unsolicited answers: a pending gNB means the session is Activating or Deactivating, and an Inactive session has no Active or pending gNB |
| MbsProofs.StepIsServedIff | src/bins/nextgcore-amfd/src/ngap_mcast.rs:359-370 | A step keeps an Active session with an Active gNB unless, exactly, it is a deactivation answer that stops the last Active gNB while another gNB is not Inactive |
| MbsProofs.RunsAreServedIff | src/bins/nextgcore-amfd/src/ngap_mcast.rs:359-370 | In every state of a run every Active session has an Active gNB, if and only if no step of the run is such a deactivation answer |
| MbsProofs.RunsAreServed | src/bins/nextgcore-amfd/src/ngap_mcast.rs:359-370 | So if deactivation answers come only from Deactivating gNBs, every Active session of every reachable state has an Active gNB |
| MbsProofs.UnaskedAnswerStrands | src/bins/nextgcore-amfd/src/ngap_mcast.rs:348-373 | Two gNBs, a late activation answer and an unasked deactivation answer after which an Active session has no Active gNB |
| MbsProofs.StepKeepsTmgiIndex | src/bins/nextgcore-amfd/src/ngap_mcast.rs:172-202 | Every TMGI index entry points to a live session with that TMGI, and finding by TMGI stays the same as scanning if and only if a new session's TMGI is not in use |
| MbsProofs.TmgisStayExactIff | src/bins/nextgcore-amfd/src/ngap_mcast.rs:172-202 | Finding by TMGI is scanning all sessions in every state of a run, if and only if every session is created with a TMGI that no live session carries |
| MbsProofs.DuplicateTmgiHidesSession | src/bins/nextgcore-amfd/src/ngap_mcast.rs:172-202 | From every state: of two sessions created with one TMGI the second is live and not found once the first is removed |
| MbsProofs.RunsAreClean | src/bins/nextgcore-amfd/src/ngap_mcast.rs:172-387 | Coherent sessions under their own ids and a sound TMGI index over every run |
| MbsContext.McastContext.SessionCreate | src/bins/nextgcore-amfd/src/ngap_mcast.rs:172-204 | Creates an Inactive session without gNBs under an id no live session has and its TMGI; keeps the invariant |
| MbsContext.McastContext.SessionActivate | src/bins/nextgcore-amfd/src/ngap_mcast.rs:210-259 | Appends one pending context per target and returns one request per target, in order; nothing for an unknown session |
| MbsContext.McastContext.SessionActivationResponse | src/bins/nextgcore-amfd/src/ngap_mcast.rs:262-311 | The first context of the gNB takes the answer and its TEID, no other context changes; the call reports whether nobody is pending, and then the session is Active if and only if some gNB is, Inactive otherwise |
| MbsContext.McastContext.SessionDeactivate | src/bins/nextgcore-amfd/src/ngap_mcast.rs:315-345 | Turns the Active contexts to Deactivating and returns one request for each of them, in order |
| MbsContext.McastContext.SessionDeactivationResponse | src/bins/nextgcore-amfd/src/ngap_mcast.rs:348-373 | Stops the first context of the gNB, and the session when all are Inactive, and returns whether that is so |
| MbsContext.McastContext.SessionRemove | src/bins/nextgcore-amfd/src/ngap_mcast.rs:376-386 | Removes the session and the index entry of its TMGI |
| MbsContext.McastContext.SessionFindByTmgi | src/bins/nextgcore-amfd/src/ngap_mcast.rs:394-398 | A hit is a live session with that TMGI, in every valid context; with a complete index it is the only one, and a miss means there is none |
| NamfHandler.HandleN1N2MessageTransfer | src/bins/nextgcore-amfd/src/namf_handler.rs:330-426 | Each answer exactly under its condition on the request. AttemptingToReachUe: an entry with the request's N1 as N1, its N2 data as N2, its session, the UE's TAC, TMSI, set id, pointer and PLMN, the time, no retransmissions and a maximum of four stands under the UE, no other entry changes, and the session is marked; with every other answer paging table and session paging are unchanged; errors leave the session alone |
| NamfHandler.InitiatePaging | src/bins/nextgcore-amfd/src/namf_handler.rs:643-696 | Files the entry built from the UE's GUTI and TAC, with at most four retransmissions, and marks the session with the failure URI |
| NamfHandler.AmfSess.StorePagingInfo | src/bins/nextgcore-amfd/src/context.rs:3071-3087 | Marks paging as ongoing at the location; the failure URI of an ongoing paging is dropped or replaced |
| NamfHandler.PagedRequestIsRetransmittedFourTimes | src/bins/nextgcore-amfd/src/context.rs:1391-1413 | After that answer, until the entry is removed or replaced, exactly the first four retransmissions succeed and the entry keeps the request, field by field |
| Paging.RetransmitsAreBounded | src/bins/nextgcore-amfd/src/context.rs:1391-1413 | Until an entry is removed or replaced, the number of successful retransmissions is the smaller of those asked and those left, and only the counter changes |
| Paging.RunsAreWellKept | src/bins/nextgcore-amfd/src/context.rs:1320-1348 | In every run entries stand under their UE, and they never exceed their maximum if and only if only such entries are filed |
| N1n2Registry.RunsAreWellKept | src/bins/nextgcore-amfd/src/context.rs:1555-1588 | In every run ids are distinct within a UE and no UE has an empty list |
| N1n2Registry.SubscribedIff | src/bins/nextgcore-amfd/src/context.rs:1555-1588 | In every run of the registry a subscription is there if and only if it was there at the start or was asked for, and since then it has not been withdrawn, dropped with its UE or cleared with all others |
| N1n2Registry.UnsubscribeUndoesSubscribe | src/bins/nextgcore-amfd/src/context.rs:1555-1588 | Removing a subscription just added restores the registry |
| SubscriptionLifecycle.SubscriptionLastsIff | src/bins/nextgcore-amfd/src/context.rs:1013-1074 | The same over every run of tables and registry together, in which a removal takes the UE in one section and drops its subscriptions in a later one |
| SubscriptionLifecycle.LostToRemovalUnderWay | src/bins/nextgcore-amfd/src/context.rs:1013-1046 | A subscription under the SUPI of a UE that stays live, alone with that SUPI, and that is not withdrawn, is lost only to a removal that was already under way when the subscription was there |
| SubscriptionLifecycle.RemovalGapDropsSubscription | src/bins/nextgcore-amfd/src/context.rs:1013-1046 | Such a loss, from every state, as one run: UE taken, new UE added and given the SUPI, subscription made, sessions dropped, subscriptions dropped; the new UE is live and found under the SUPI and its subscription is gone |
| SubscriptionLifecycle.WholeRemoval | src/bins/nextgcore-amfd/src/context.rs:1013-1046 | Without another section between them the sections of a removal leave tables and registry as the whole call does |
| SubscriptionLifecycle.RegistryStaysAnchoredIff | src/bins/nextgcore-amfd/src/context.rs:1035-1041 | In every state of a run every UE of the registry is live or being removed, if and only if subscriptions are only made for such UEs and a UE with subscriptions gives up its SUPI only to another one |
| SubscriptionLifecycle.SubscriptionOfNobody | src/bins/nextgcore-amfd/src/context.rs:1555-1569 | A run where it fails: a subscription for a SUPI that no UE has |
| SubscriptionLifecycle.RenamedUeLeaks | src/bins/nextgcore-amfd/src/context.rs:1137-1152 | Another, from every state: the only UE with a SUPI subscribes and is given another SUPI |
| N1n2Registry.FindAnyN2 | src/bins/nextgcore-amfd/src/context.rs:1653-1680 | Whatever the iteration order, nothing is found exactly when no UE has a subscription for the class with a callback, and otherwise one with the greatest id |
| N1n2Registry.LeqIsDictionaryOrder | src/bins/nextgcore-amfd/src/context.rs:1653-1680 | Ids are ordered as in a dictionary: the beginning of a longer one comes first, and otherwise the first place where they differ decides |
| N1n2Registry.FindAnyIsDeterminedIff | src/bins/nextgcore-amfd/src/context.rs:1645-1680 | The answer is the same for every iteration order if and only if no two different matches share the greatest id |
| N1n2Registry.SharedIdIsAmbiguous | src/bins/nextgcore-amfd/src/context.rs:1645-1680 | Two UEs that share one subscription id: the answer is the one of the UE walked last |
| N1n2Registry.DistinctIdsSuffice | src/bins/nextgcore-amfd/src/context.rs:1645-1680 | Ids distinct across UEs guarantee that |
| EgressQueues.QueueConserves | src/bins/nextgcore-amfd/src/context.rs:1359-1388 | For every interleaving of adds and drains, the drained batches followed by the queue are the initial queue followed by the added items |
| NamfHandler.HandleDeregNotify | src/bins/nextgcore-amfd/src/namf_handler.rs:479-511 | Queues exactly one deregistration for a 3GPP-access notification, with re-registration required exactly for UE_INITIAL_REGISTRATION, and none for other access |
| NamfHandler.DeregistrationsAreConserved | src/bins/nextgcore-amfd/src/namf_handler.rs:479-511 | Over every interleaving of notifications and pumps the deregistrations handed over and those still queued are one per 3GPP-access notification, in order |
| IdentityCodec.GutiRoundTrip | src/bins/nextgcore-amfd/src/gmm_build.rs:926-951 | parse_guti undoes encode_guti if and only if every digit is below 16, the set id below 1024 and the pointer below 64 |
| IdentityCodec.GutiOctets | src/bins/nextgcore-amfd/src/gmm_build.rs:926-951 | The octets of a GUTI that fits: 0xf2, the digits of MCC and MNC two to an octet with the first in the low half, the region, ten bits of set id and six of pointer, the TMSI from the top down |
| IdentityCodec.GutiReencodes | src/bins/nextgcore-amfd/src/gmm_handler.rs:741-770 | Re-encoding a parsed buffer gives it back if and only if it has 11 octets and starts with 0xf2 |
| IdentityCodec.NssaiIsInjective | src/bins/nextgcore-amfd/src/gmm_build.rs:530-548 | Two S-NSSAI lists of any length have the same encoding if and only if they agree slice by slice up to SD bits above 2^24 |
| IdentityCodec.SliceOctets | src/bins/nextgcore-amfd/src/gmm_build.rs:530-548 | The octets of a slice: the length of what follows, the SST and the low 24 bits of the SD from the top down |
| IdentityCodec.EncodeNssai | src/bins/nextgcore-amfd/src/gmm_build.rs:530-548 | The loop writes that encoding |
| GprsTimer3.Encode | src/bins/nextgcore-amfd/src/gmm_build.rs:360-392 | Zero gives the deactivated timer; a duration that some unit times 1 to 31 equals is encoded exactly in the coarsest such unit; every other duration, and only such, is changed, to nine minutes |
| GprsTimer3.UnitsAreNamed | src/bins/nextgcore-amfd/src/gmm_build.rs:368-378 | The units are ten minutes, one hour, ten hours, two and thirty seconds, one minute and 320 hours |
| Diameter.ParseUndoesSerialise | src/fuzz/fuzz_targets/fuzz_diameter_message.rs:127-196 | Parsing the padded serialisation of AVPs whose V flag says whether a vendor id is present gives them back |
| Diameter.ParseIsTheLayout | src/fuzz/fuzz_targets/fuzz_diameter_message.rs:127-196 | For every input the result is the one list laid out in it: each AVP at the front of what its predecessors and their padding leave, and no AVP where parsing stops |
| Diameter.ReserialisesUpToPadding | src/fuzz/fuzz_targets/fuzz_diameter_message.rs:127-196 | The re-serialisation has the length of what was consumed, at most three octets of padding beyond the input; it equals the input at every position outside padding; every AVP stands in both at the same offset; no AVP follows in the input |
| Diameter.ParseAvps | src/fuzz/fuzz_targets/fuzz_diameter_message.rs:127-196 | The loop, with its recursion into grouped AVPs on ever shorter data, terminates with that list |
| Diameter.ReadAvp | src/fuzz/fuzz_targets/fuzz_diameter_message.rs:131-181 | One round of the loop reads the AVP at the offset and the offset after its padding, or stops exactly where none stands |
| Diameter.BareOctets | src/fuzz/fuzz_targets/fuzz_diameter_message.rs:131-181 | An AVP is its code in four octets, the flags, its length in three, a vendor id in four exactly when bit 7 of the flags is set, and its data |
| Diameter.ParseMessage | src/fuzz/fuzz_targets/fuzz_diameter_message.rs:46-104 | The result is a message if and only if that message stands at the front of the input: version 1, a length from 20 to the input's, its header octets, and its AVPs laid out up to that length; otherwise the error names the first condition that fails, each exactly when it does |
| Diameter.ParsedMessageIff | src/fuzz/fuzz_targets/fuzz_diameter_message.rs:46-104 | The same if-and-only-if for every input and every message, on which the round trip rests |
| Diameter.HeaderOctets | src/fuzz/fuzz_targets/fuzz_diameter_message.rs:46-104 | The header is version 1, the length in three octets, the flags, the command in three, and application, hop-by-hop and end-to-end ids in four each |
| Diameter.MessageRoundTrip | src/fuzz/fuzz_targets/fuzz_diameter_message.rs:46-104 | A serialised message parses back to itself whatever octets follow it |

## Left out
- The library-backed encoder and decoder (`nas_5gs_security_encode_nextgcore`, `_decode_nextgcore`) and the message builders: adapters over another library.
- SNOW 3G, AES, ZUC, CMAC, SHA-256 and key derivation: the primitives stay parameters.
- AmfStoreLifecycle.IdsNeverReissued: generators are unbounded numbers; the 64-bit counters of the source would wrap after 2^64 allocations.
- AmfContext.Context.AddRanUe: the 32-bit index is modelled with its wrap, but nothing is claimed about finding a RAN UE by index.
- LockOrder.NoDeadlock: the lock around the whole context, lock poisoning, and the locks of `ngap_mcast.rs`, whose finder takes index then sessions while creation takes sessions then index.
- MbsContext.McastContext.SessionActivate: requests are records of their contents; the octet layout of the MBS messages, group paging and the session update procedure are not modelled.
- Diameter.ParseMessage: the version, the length field and the request bit derived from the flags are not kept in the parsed message; Session-Id, identity and result-code helpers only add easy members.
- NamfHandler.HandleN1N2MessageTransfer: the RAN UE argument only changes log lines in the source and is not modelled; SM context status and event exposure handlers are not modelled.
- LockFootprint.OverlappingSectionsCommute: `init` and `fini`, which have the context to themselves, and two operations that both draw from the one generator outside all locks, where either order is a run but the ids differ.
- SubscriptionLifecycle.SubscriptionLastsIff: the LCS correlations, dropped in a section of their own after the subscriptions, are not part of the joint runs.
- Linear-scan finders (RAN UE by NGAP id or index, session by PSI or DNN), N1/N2 lookups within one UE, event subscriptions and LCS correlation lookups: direct reads of one table.
- Mutual pairing of AMF UE and RAN UE: associating does not unlink former partners, so it is not an invariant.
- Algorithm selection and ciphering policy, the GMM and AMF state machines, emergency handling, metrics, UAV geofencing, `encode_tai_list`, configuration, OAuth2 and SBI/NGAP input and output.
- The GTP, PFCP, NAS, NGAP and S1AP fuzz parsers: simpler repeats of the Diameter loop, or calls into libraries.
