# Glove's audit core: a verified model

This project models the part of Glove that makes, chains, stores, recovers and ships authenticated receipts, and the
streaming machines that feed it, and proves what they promise.

* **Receipts and their bytes** (`Receipts`, `RefinementReceipts`, `Outcome`, `OutcomeJson`, `Canonical`, `Bytes`, `Hex`): the validators,
  the canonical encodings and the proof that equal bytes mean equal receipts.
* **Hashing** (`Sha256`, `Hmac`): the streaming hash against FIPS 180-4 and the keyed hash against RFC 2104.
* **The chain** (`AuditChain`, `Histories`, `Deployment`): producing and verifying envelopes; a head determines its history.
  The hash, the keyed hash and the receipt digest are parameters there; `Deployment` puts the concrete ones in. Freedom
  from collisions is a hypothesis on the materials at hand, never on all inputs.
* **The journal** (`Framing`, `Journal`, `CrashRecovery`, `JournalObject`): the framed file as a byte sequence, every system
  call as something that may fail, appends with rollback, recovery at every byte, and the life of a journal through
  crashes. The JSON codec is a foreign library; it appears as a pair of functions with a stated round trip.
* **Producer and reconciliation** (`Reservations`, `ProducerObject`, `Merging`, `Reconcile`, `Bootstrap`): the capacity
  allocator as a state machine over the steps of its threads, the acknowledgement gate, and paging to the head.
* **Refinement evaluation** (`LiteralMatcher`, `Utf8`, `Evaluator`, `TranscriptEvaluator`): streaming search and validation
  and the verdict they lead to.
* **Output and resources** (`Lines`, `PumpProtocol`, `PumpObject`, `ResourceMonitor`): the pump between a child's output and its
  receivers, and the arbitration of what ends a child.
* **Bounded audit log, JSON guard, idempotent mutations** (`JsonlSink`, `JsonText`, `JsonGuard`, `JsonGuardObject`,
  `MutationTable`).

Where the source updates something in place there is a class whose methods are proved against functions on an abstract
state (`View`), and the promises are lemmas about those functions, for all inputs and all runs.

Four promises are false of the code as it stands. The code is modelled as it is; each has a concrete input and the exact
condition:

* What the journal holds is meant to be durable (`contains_exact` answers for "the durable journal"). Opening does not sync
  a file that is not torn, so a new process takes up a record that was written, never synced, and reported as failed. A
  loss of power can then take it from a journal that has handed it out, and the peer that got it is refused
  (`CrashRecovery.UnsyncedTakenUp`). A journal that is up holds only durable records if and only if its whole file is
  synced (`CrashRecovery.UpHoldsFirm`), which every life without a new process on an old file ensures; records reported
  as appended are never lost (`CrashRecovery.DurableForever`).
* `finish_draining` of the output pump promises to preserve what arrived before the ends of both streams. If stdout ends
  while stderr has not, and no frame is queued or an unterminated rest is left, the worker ends with stderr unread
  (`PumpProtocol.StderrLeftUnread`). Over all runs without a stop: a worker that gave up at a frame or output limit, a
  failed call or a failed callback has never read both streams to their ends; any other has if and only if, when stdout
  ended, stderr had ended, or stdout was discarded, or whole frames and nothing else were queued
  (`PumpProtocol.DrainedExact`).
* Bounding an oversized audit log promises to keep every non-blank line behind the last blank one that does not extend
  left of the window. If a line begins exactly at the window's edge and no blank line follows, that line is dropped
  (`JsonlSink.OpenedLosesLine`, `JsonlSink.OpenedExact`).
* A refinement receipt is handed out without looking at the transcript digest, so it may carry evidence that the receipt
  validator refuses (`Evaluator.DigestUnchecked`); it is accepted if and only if that digest is well formed
  (`Evaluator.VerdictIsEvidence`).

A fifth depends on the JSON encoder, which is foreign: an idempotent mutation whose operation succeeded is recorded only
if its result can be encoded. Later operations of its key are ruled out if and only if the encoder accepted that result
(`MutationTable.AtMostOnceExact`); if the encoder ever refused it, a retry would run the operation again
(`MutationTable.RunsTwice`). Whether the encoder can refuse is not part of this model.

## Model

| member | source | states |
|---|---|---|
| `Framing.ScanCut` | src/container/receipt_journal.cpp:391-457 | the recovery scan of an accepted payload list cut at any byte finds exactly the records whose frames fit wholly, stands at their anchor, and reports a torn tail if and only if the cut is off a frame boundary |
| `Framing.FitIsExact` | src/container/receipt_journal.cpp:391-457 | the frames counted as fitting do fit in the bytes that are left, and one more does not |
| `Framing.ScanSound` | src/container/receipt_journal.cpp:391-457 | whatever a scan of arbitrary bytes recovers was written as frames of payloads the reader accepts, and a tail is torn if and only if bytes are left over |
| `Framing.ScanExact` | src/container/receipt_journal.cpp:391-457 | over arbitrary bytes: the scan reports a corruption if and only if, behind the frames of accepted payloads, a length is out of range, a whole frame has another footer, or its payload is refused, and reports just that; otherwise it finds the records in front of nothing or of a torn tail |
| `Framing.RecoverRecords` | src/container/receipt_journal.cpp:391-457 | the recovery loop, with its tests of length, size, footer and payload in order, computes the declarative scan of the bytes behind the header, for every reader of payloads |
| `Framing.ReadAllPrefix` | src/container/receipt_journal.cpp:391-457 | every prefix of an accepted payload list is accepted and read to the same leading records |
| `Framing.ReadBack` | src/container/receipt_journal.cpp:101-105 | four bytes are the big-endian form of the number they denote |
| `Journal.ContextSound` | src/container/receipt_journal.cpp:504-510 | the header made for a key has 72 bytes, and equal headers mean equal key identities |
| `Journal.DecodeEncode` | src/container/receipt_journal.cpp:294-333 | a record that can be encoded is decoded back, the tagged format winning over the legacy one |
| `Journal.DecodeExact` | src/container/receipt_journal.cpp:313-333 | a payload is decoded to a record if and only if it is the tagged form of the record, or is not tagged at all and is its legacy envelope |
| `Journal.OpenCut` | src/container/receipt_journal.cpp:530-598 | opening a journal cut anywhere at or past its header never reports corruption: it recovers the records whose frames fit, refuses a peer anchor that is no prefix of them, needs an anchor exactly when the tail is torn, and truncates exactly that tail |
| `Journal.OpenExisting` | src/container/receipt_journal.cpp:530-598 | the code of opening, with its loop, its order of tests and each failing system call, returns the result and leaves the file that the specification says |
| `Journal.OpenExact` | src/container/receipt_journal.cpp:530-598 | on every file: opening is refused exactly for its bound, size or header, or for a fault behind the frames of accepted payloads; otherwise it answers by the peer anchor, the torn tail and the faults of the repair; a refused file is left unchanged |
| `Journal.AppendKeeps` | src/container/receipt_journal.cpp:600-675 | one append under any faults: success extends records, chain and file by the record returned; failure leaves records, sequence, head and durable size alone, and the file too unless the journal is poisoned; the state keeps agreeing with what recovery reads from the durable bytes |
| `Journal.RunKeeps` | src/container/receipt_journal.cpp:600-750 | over every run of appends with arbitrary write, sync and rollback faults the state agrees with its file and has gained exactly the records returned, in order |
| `Journal.PreparedExtends` | src/container/receipt_journal.cpp:617-637 | the envelope prepared for an append is one that recovery accepts after the records already there |
| `Journal.PrepareExact` | src/container/receipt_journal.cpp:617-637 | there is something to write exactly if the chain grants an envelope whose encoding is non-empty and within the payload bound |
| `Journal.AppendExact` | src/container/receipt_journal.cpp:600-675 | an append succeeds if and only if the journal is up and unchanged, a record was prepared that fits, and the write and the sync succeed; every failure is reported as what it is; it is poisoned exactly if a check or the rollback fails; and the file, records and chain it leaves are given in terms of its inputs |
| `Journal.ReadCapacityExact` | src/container/receipt_journal.cpp:945-960 | the capacity is known exactly while the file can be checked and is as it was left; otherwise the journal is poisoned |
| `Journal.CommitBacked` | src/container/receipt_journal.cpp:638-675 | writing, syncing and rolling back keep the agreement of state and file, whichever of them fails |
| `Journal.ReadAllVerifies` | src/container/receipt_journal.cpp:430-453 | the records recovery reads are a history that verifies from the genesis anchor to the anchor recovery ends at |
| `Journal.CreateBacked` | src/container/receipt_journal.cpp:479-528 | a new journal agrees with its header-only file |
| `Journal.HeadDeterminesJournal` | src/container/receipt_journal.cpp:344-358 | without collisions among their materials, two journals of one key have the same head if and only if they hold the same records |
| `CrashRecovery.CrashDuringAppend` | src/container/receipt_journal.cpp:600-675 | a crash after any number of bytes of the frame being appended: reopening finds the old records, or the old records and the new one exactly if the whole frame was written, and the file accordingly |
| `CrashRecovery.RestartRecovers` | src/container/receipt_journal.cpp:530-598 | after any crash of a backed journal a peer holding any prefix anchor reopens it with every durable record and at most one more, and opening once more changes nothing |
| `CrashRecovery.DurableForever` | src/container/receipt_journal.cpp:530-750 | through every mix of appends, faults, losses of power, new processes and failing repairs, where only successful syncs make bytes safe, what recovery finds in the synced bytes is never lost or changed, and every record reported as appended stands there at its sequence number |
| `CrashRecovery.UnsyncedTakenUp` | src/container/receipt_journal.cpp:571-598 | a run that takes up a record whose append was reported as failed and whose bytes were never synced; after a loss of power a peer that has it is refused |
| `CrashRecovery.UpHoldsFirm` | src/container/receipt_journal.cpp:571-598 | a journal that is up holds all firm records, and no others if and only if its whole file is synced |
| `CrashRecovery.EventKeeps` | src/container/receipt_journal.cpp:530-750 | every append, loss of power or restart, with its faults, keeps file and disk parts of one journal as far as it is synced, and loses no firm record |
| `CrashRecovery.DurableFromCreation` | src/container/receipt_journal.cpp:479-750 | from its creation on a journal holds every record ever reported as appended among its firm records; while it is up it holds all firm records, and without a new process on an old file no others |
| `CrashRecovery.OpenFaulty` | src/container/receipt_journal.cpp:571-588 | a repair that fails reports its error and leaves the torn tail, or leaves it removed but not synced; every other opening is unaffected |
| `CrashRecovery.ReopenClean` | src/container/receipt_journal.cpp:530-598 | opening the file of a journal that is not poisoned yields its own state |
| `CrashRecovery.OpenCrashed` | src/container/receipt_journal.cpp:530-598 | what opening yields for every cut behind the durable size: the durable payloads, and the pending one exactly if its whole frame survived |
| `JournalObject.ReceiptJournal.WriteAt` | src/container/receipt_journal.cpp:107-128 | however the system splits the write, the file ends up extended by exactly the bytes written before success or failure |
| `JournalObject.ReceiptJournal.Restore` | src/container/receipt_journal.cpp:641-653 | the rollback truncates to the durable size or poisons the journal |
| `JournalObject.ReceiptJournal.Append` | src/container/receipt_journal.cpp:600-750 | the method that saves and restores the chain, counts the record, writes, syncs and rolls back reaches the state and result of the append specification |
| `JournalObject.ReceiptJournal.Store` | src/container/receipt_journal.cpp:634-675 | the second half of an append: refused for want of capacity without a trace, or committed with its faults |
| `JournalObject.ReceiptJournal.Page` | src/container/receipt_journal.cpp:752-796 | the paging loop deals the next records out to two lists, in order; a journal whose file is found changed or cannot be checked is poisoned, and nothing else changes |
| `JournalObject.ReceiptJournal.Remaining` | src/container/receipt_journal.cpp:945-960 | the remaining capacity, or none for a journal that is or becomes poisoned |
| `JournalObject.ReceiptJournal.ContainsExact` | src/container/receipt_journal.cpp:798-818 | a poisoned journal refuses, a file found changed poisons it, and otherwise looking only at the position its sequence number names decides whether the envelope is anywhere in the journal |
| `JournalObject.ReceiptJournal.TerminalFor` | src/container/receipt_journal.cpp:842-924 | the only terminal record of an execution, none exactly if there is none, and an error if there are several; a poisoned journal refuses and a file found changed poisons it |
| `JournalObject.SequenceIsPosition` | src/container/receipt_journal.cpp:813-817 | among the records read from a journal an envelope is present if and only if it stands where its sequence number says |
| `Merging.MergeUndoesSplit` | src/container/receipt_journal.cpp:788-794 | dealing an ascending list out to two lists and merging them by rank gives the list back |
| `Merging.Deal` | src/container/receipt_journal.cpp:788-794 | the dealing loop keeps every element of the stretch, in order, in one of the two lists |
| `Reconcile.PageAdvances` | src/container/receipt_journal.cpp:752-796 | the two lists of a page merge by sequence into exactly the next min(limit, remaining) records, which verify from the anchor asked with to another prefix anchor; more is announced if and only if that is not yet the local head |
| `Reconcile.PageRefused` | src/container/receipt_journal.cpp:752-771 | a page is refused exactly for its limit, for a journal that is or becomes poisoned, or for an anchor that is no prefix; otherwise it is answered |
| `Reconcile.FollowConverges` | src/container/receipt_journal.cpp:752-796 | following pages from any prefix anchor never fails, reaches exactly the sequence the limits allow, and the local head if and only if they cover what was missing |
| `Reconcile.NextVerifies` | src/container/receipt_journal.cpp:344-358 | the records behind a prefix anchor verify from it to the prefix anchor at their end |
| `Reconcile.HeadIsLast` | src/container/receipt_journal.cpp:344-358 | among the anchors accepted as prefixes the local head is the one that has every record |
| `Reconcile.PrefixExact` | src/container/receipt_journal.cpp:344-358 | an anchor is accepted as a prefix if and only if verifying some prefix of the records from the genesis reaches it |
| `Bootstrap.PagesFixed` | src/container/receipt_producer.cpp:361-406 | before reconciliation every page read at any moment of any interleaving is a page of the journal as it was opened, unless the journal has been poisoned, and then every page is refused for that |
| `Bootstrap.BootstrapConverges` | src/container/receipt_producer.cpp:323-406 | over every interleaving of a paging peer with all other threads before reconciliation, the peer stands at a prefix anchor, further on by exactly what its pages had room for, and at the local head if and only if they covered what it missed |
| `Bootstrap.BootstrapCompletes` | src/container/receipt_producer.cpp:323-369 | whenever no thread is in the way, acknowledging where the peer stands opens the gate if and only if its pages covered what it missed |
| `AuditChain.ProducedIsAccepted` | src/container/receipt_chain.cpp:417-495 | whatever is produced after an anchor is accepted at it, for its own session and plan, and becomes the next anchor |
| `AuditChain.ProduceExact` | src/container/receipt_chain.cpp:417-495 | a request is granted if and only if session and plan are well formed, the sequence has a successor and the receipt has a digest; the envelope then carries just these behind the anchor |
| `AuditChain.RunsAreAccepted` | src/container/receipt_chain.cpp:417-495 | every run of the producer, refusals included, is accepted in order and leaves the verifier at the producer's sequence and head |
| `AuditChain.CheckFacts` | src/container/receipt_chain.cpp:571-631 | acceptance implies schema, sequence successor, key identity, the expected session and plan, and the equality of previous HMAC, receipt digest and HMAC with what was computed |
| `AuditChain.VerifyExact` | src/container/receipt_chain.cpp:571-693 | a record is accepted if and only if its schema is 1, session and plan are well formed and are the expected ones, both key identities are the key's, the sequence is the successor, and previous HMAC, receipt digest and HMAC are well formed and as computed; a record of another session or plan is never accepted |
| `AuditChain.VerifyAllAnchor` | src/container/receipt_chain.cpp:571-693 | an accepted history advances the sequence by its length, keeps the key, and ends at its last HMAC |
| `AuditChain.VerifyAllSequence` | src/container/receipt_chain.cpp:604-607 | record number i of an accepted history carries the sequence number of its position |
| `AuditChain.RecordDetermined` | src/container/receipt_chain.cpp:333-371 | without collisions among the materials at hand, two accepted records of either kind with equal HMACs are equal and were accepted at the same anchor |
| `AuditChain.HeadDeterminesHistory` | src/container/receipt_chain.cpp:571-693 | without such collisions, two histories mixing both kinds that verify from one start to one anchor are equal element by element |
| `AuditChain.Chain.Append` | src/container/receipt_chain.cpp:417-495 | the tests and updates in place advance sequence and head exactly as the specification says, and a refusal changes nothing |
| `AuditChain.TrustedAnchor.Advance` | src/container/receipt_chain.cpp:571-693 | the tests in order advance the anchor in place if and only if every one passes, report the one that fails, and leave the anchor alone then |
| `Deployment.DeployedDigests` | src/container/receipt_chain.cpp:278-331 | the deployed hash and HMAC answer with lowercase hex digests and receipts are digested by hashing their canonical bytes, so the theorems about the chain hold of them |
| `Deployment.MacIsHmac` | src/container/receipt_chain.cpp:291-331 | the HMAC of every record accepted under a 32-byte key is the hex of RFC 2104 over its material |
| `Canonical.ShapeCancel` | src/container/receipt_chain.cpp:24-57 | equal encodings that begin with segments of the same shape have equal segments and equal rests, for strings shorter than 2^32 bytes |
| `Canonical.TokenCancel` | src/container/receipt_chain.cpp:24-57 | one integer or length-prefixed string can be taken off the front of two equal encodings |
| `Bytes.BigEndianAt` | src/container/receipt_chain.cpp:28-44 | byte i of an encoded integer is the value shifted right by the bytes behind it |
| `Bytes.BigEndianRoundTrip` | src/container/receipt_journal.cpp:94-105 | decoding the big-endian bytes of a number that fits gives the number back |
| `Receipts.EncodingInjective` | src/container/receipt_chain.cpp:191-276 | two receipts, local or remote, that pass validation and have equal canonical bytes are equal, in spite of the conditional authority section, the optional exit code and the optional trailing sections |
| `Receipts.TailInjective` | src/container/receipt_chain.cpp:244-274 | the optional projection and change sections can be told apart and read back |
| `Receipts.AuthorityCancel` | src/container/receipt_chain.cpp:219-228 | the section that only remote receipts have does not blur the boundary to what follows |
| `Receipts.CheckProjections` | src/container/profile.cpp:91-116 | the loop with its previous identity and its set of targets accepts exactly the valid projection lists |
| `Receipts.CheckChanges` | src/container/profile.cpp:118-142 | the loop accepts exactly the valid change lists |
| `Outcome.CanonicalInjective` | src/container/refinement_protocol.cpp:490-522 | outcome bytes are equal only for equal outcomes, hence for equal metric maps |
| `Outcome.PrintOutcome` | src/container/refinement_protocol.cpp:490-522 | the printing loop produces the canonical bytes, or refuses exactly the outcomes that have none |
| `Outcome.DecimalInjective` | src/container/refinement_protocol.cpp:227-235 | different integers have different decimal forms |
| `Outcome.DecimalDenotes` | src/container/refinement_protocol.cpp:227-235 | what is printed denotes the value, without leading zeros |
| `Outcome.CanonicalExists` | src/container/refinement_protocol.cpp:490-522 | every valid outcome has canonical bytes: the size test of the printer never refuses one |
| `OutcomeJson.CanonicalText` | src/container/refinement_protocol.cpp:490-522 | the canonical bytes of an outcome are, byte for byte, the text of the JSON object of its schema, its encoding and the object of its metrics in order |
| `OutcomeJson.CanonicalIsJson` | src/container/refinement_protocol.cpp:490-522 | with distinct metric names they are a JSON text by RFC 8259, of three distinct members, and the duplicate-key guard accepts them |
| `RefinementReceipts.EncodingInjective` | src/container/refinement_protocol.cpp:726-768 | refinement receipts with valid evidence and equal canonical bytes are equal, unless their resource receipts collide |
| `Sha256.HashBlock` | src/container/sha256.cpp:48-63 | hashing whole blocks and then one more compresses that block into the chaining value |
| `Sha256.PadFinal` | src/container/sha256.cpp:70-87 | the last one or two blocks of the code are the padding of section 5.1.1 of FIPS 180-4 |
| `Sha256.PadTwo` | src/container/sha256.cpp:72-78 | when the length does not fit, the padding is the rest of this block and a block of its own |
| `Sha256.ScheduleStep` | src/container/sha256.cpp:108-116 | the additions of the code compute the message schedule of section 6.2.2 of FIPS 180-4 |
| `Sha256.Stream.BuildSchedule` | src/container/sha256.cpp:99-116 | the two schedule loops fill in the schedule of section 6.2.2 of FIPS 180-4 |
| `Sha256.Stream.Transform` | src/container/sha256.cpp:99-150 | the rounds and additions on the working variables are the compression function of the standard |
| `Sha256.Stream.Update` | src/container/sha256.cpp:48-63 | an update absorbs its input, in any chunking, or is refused exactly when the bit length would no longer fit 64 bits |
| `Sha256.Stream.Finish` | src/container/sha256.cpp:70-97 | padding and the last compressions yield the hash of everything absorbed |
| `Sha256.Stream.DigestHex` | src/container/sha256.cpp:65-68 | the digest is the hash of the concatenation of all updates, and taking it leaves the stream as it was |
| `Sha256.Sha256Hex` | src/container/sha256.cpp:154-160 | the one-shot hash is the hex of the standard's hash for every input whose bit length fits |
| `Hmac.HmacSha256Hex` | src/container/receipt_chain.cpp:291-331 | filling the pads and XORing the short key computes section 2 of RFC 2104 for every key up to one block and every message |
| `Hmac.FillPad` | src/container/receipt_chain.cpp:296-305 | a pad filled with its byte, with the key XORed over its start, is the zero-padded key XORed with that byte |
| `Hex.DecodeEncode` | src/container/sha256.cpp:33-44 | decoding the lowercase hex of any bytes gives them back |
| `Hex.EncodeDecode` | src/container/receipt_chain.cpp:74-102 | encoding what a lowercase hex string decodes to gives the string back |
| `Hex.DecodeDigest` | src/container/receipt_chain.cpp:84-102 | the decoding loop accepts exactly the 64-character lowercase hex strings and returns their bytes |
| `Hex.EncodeDigest` | src/container/sha256.cpp:33-44 | the encoding loop returns the lowercase hex of its bytes |
| `Hex.DigestEqualIsEquality` | src/container/receipt_chain.cpp:373-385 | two digests compare equal if and only if both are digests and they are the same string |
| `Reservations.StepKeeps` | src/container/receipt_producer.cpp:361-467 | every step of every thread keeps the invariant: one maximal record reserved per live reservation, and room for every holder |
| `Reservations.RunKeeps` | src/container/receipt_producer.cpp:376-515 | over every interleaving the holders' maximal records fit the remaining capacity, the process is never terminated by a release, and the counter never overflows |
| `Reservations.HolderNeverExhausts` | src/container/receipt_producer.cpp:425-467 | whatever the other threads do, no holder's append fails for want of capacity |
| `Reservations.AppendSize` | src/container/receipt_journal.cpp:635-637 | an append grows the journal by at most one maximal record, and not at all if it fails |
| `Reservations.GateHolds` | src/container/receipt_producer.cpp:361-406 | over every interleaving: before reconciliation no reservation exists and the journal has not moved, and the anchor that opened the gate was its head |
| `Reservations.HeadOpensGate` | src/container/receipt_producer.cpp:361-369 | acknowledging opens the gate if and only if the anchor is the local head or it was open |
| `Reservations.StartExact` | src/container/receipt_producer.cpp:341 | a producer begins reconciled if and only if the peer already has the head, with nothing reserved |
| `ProducerObject.GivenBackSteps` | src/container/receipt_producer.cpp:253-258 | giving a reservation back is the abandoning and releasing steps of the protocol, keeps the invariant, and finds the bytes it subtracts |
| `ProducerObject.SpentSteps` | src/container/receipt_producer.cpp:425-445 | committing is an append and a release of the protocol, and the append is never refused for want of capacity |
| `ProducerObject.ReservedSteps` | src/container/receipt_producer.cpp:376-392 | reserving is the reading and granting steps of the protocol and keeps the invariant |
| `ProducerObject.AuditProducer.ReserveTerminal` | src/container/receipt_producer.cpp:376-423 | a reservation is granted if and only if its binding is valid, the gate is open, the capacity can be read, and one more maximal record fits behind those reserved; each refusal is answered exactly in its own case |
| `ProducerObject.AuditProducer.Commit` | src/container/receipt_producer.cpp:425-467 | the reservation is consumed in every case; a foreign or mismatching one appends nothing; a matching one appends once, never failing for want of capacity |
| `ProducerObject.AuditProducer.ReleaseReservation` | src/container/receipt_producer.cpp:509-515 | the bytes of one reservation are given back and the terminating branch is dead |
| `ProducerObject.AuditProducer.AcknowledgeBootstrap` | src/container/receipt_producer.cpp:361-369 | the flag is set if and only if the anchor is the local head |
| `ProducerObject.AuditProducer.PageAfter` | src/container/receipt_producer.cpp:499-503 | reading a page is the page step of the protocol and keeps the invariant |
| `ProducerObject.Reservation.Release` | src/container/receipt_producer.cpp:253-258 | the first release gives the bytes back to the owner and forgets it; later ones do nothing |
| `LiteralMatcher.BuildTable` | src/container/refinement_protocol.cpp:360-371 | the constructor's loop computes the longest proper border of every prefix of the literal |
| `LiteralMatcher.Matcher.Consume` | src/container/refinement_protocol.cpp:373-385 | after any bytes the match length is the longest proper prefix of the literal that ends the input, the flag says whether the literal occurred, indices stay in range, and the fallbacks counted are those of the work function, never more than the bytes |
| `LiteralMatcher.Matcher.FallBack` | src/container/refinement_protocol.cpp:375-377 | the fallback loop ends at the longest match that the byte extends, or at none, after exactly the fallbacks the work function counts |
| `LiteralMatcher.FallbacksBounded` | src/container/refinement_protocol.cpp:373-385 | the number of fallbacks taken over a text, a function of literal and text, and the length still matched together never exceed the bytes |
| `LiteralMatcher.OccursExtend` | src/container/refinement_protocol.cpp:373-385 | a literal occurs in an extended text if and only if it did before or ends it |
| `LiteralMatcher.Fallback` | src/container/refinement_protocol.cpp:375-377 | a fallback loses no candidate that the byte could extend |
| `LiteralMatcher.Extend` | src/container/refinement_protocol.cpp:375-380 | after the fallbacks the longest extension is one byte longer, or empty |
| `Utf8.RunExact` | src/container/refinement_protocol.cpp:593-629 | from any accepting state the incremental validator accepts exactly the texts that are well-formed by section 4 of RFC 3629 |
| `Utf8.ChunkedExact` | src/container/refinement_protocol.cpp:593-629 | only the concatenation of the chunks decides |
| `Utf8.CheckLiteral` | src/container/refinement_protocol.cpp:102-143 | the batch check accepts exactly the non-empty well-formed literals within the bound |
| `Evaluator.CheckLiterals` | src/container/refinement_protocol.cpp:145-159 | the loop accepts exactly the strictly ascending lists of valid literals within the count and the running total of bytes |
| `Evaluator.VerdictExact` | src/container/refinement_protocol.cpp:633-719 | the receipt repeats each part of the binding, the resource receipt, the transcript and the literal counts; its outcome is valid if and only if the transcript is complete and well-formed UTF-8; its five named metrics are then the number of failed assertions, the literals of either kind, the saturated latency, and a pass if and only if every required literal occurs, no forbidden one does, and termination, exit code and latency are as asserted |
| `Evaluator.VerdictIsEvidence` | src/container/refinement_protocol.cpp:323-352 | the receipt satisfies the evidence validator if and only if the transcript digest it was given is a digest |
| `Evaluator.VerdictDigestible` | src/container/refinement_protocol.cpp:641-645 | a receipt can be digested if and only if its resource receipt can, the input was acceptable and the transcript digest is one: the inputs refused are those whose receipt never could |
| `Evaluator.DigestUnchecked` | src/container/refinement_protocol.cpp:633-646 | a valid binding, no assertions and an acceptable transcript without any digest, for which every text yields a receipt that the evidence validator refuses |
| `Evaluator.LatencyUs` | src/container/refinement_protocol.cpp:693-697 | the latency metric is the wall time in microseconds, saturated at the largest signed 64-bit value |
| `TranscriptEvaluator.TranscriptEvaluator.Consume` | src/container/refinement_protocol.cpp:580-631 | every chunk is fed byte by byte to every matcher and to the validator, and refused once finished |
| `TranscriptEvaluator.TranscriptEvaluator.Finish` | src/container/refinement_protocol.cpp:633-719 | the first acceptable call decides by the whole transcript consumed and repeats its inputs exactly; later calls repeat its receipt; unacceptable input is refused and decides nothing |
| `TranscriptEvaluator.TranscriptEvaluator.Judge` | src/container/refinement_protocol.cpp:675-692 | the loops over the matchers count exactly the failed assertions of the transcript |
| `PumpProtocol.StepKeeps` | src/container/output_pump.cpp:133-375 | every step of the worker, a receiver or a stop keeps conservation of the bytes, the bounds, and the conditions under which stdout may be read |
| `PumpProtocol.RunFrames` | src/container/output_pump.cpp:133-341 | over every chunking and interleaving the frames delivered, then those queued, then those in the buffer are the lines of what was read; once stdout has ended without a stop, the unterminated frame is reported if and only if bytes are left |
| `PumpProtocol.ReceivesInOrder` | src/container/output_pump.cpp:133-150 | over every run a receiver gets the line of the input behind those delivered, and nothing else changes |
| `PumpProtocol.RunLosesNothing` | src/container/output_pump.cpp:196-251 | a worker that ends without error or stop has read both streams to the end, and delivered plus queued frames are every byte of stdout |
| `PumpProtocol.RunBounded` | src/container/output_pump.cpp:253-301 | queued bytes are counted exactly, stay within the cap when two frames are queued and within one frame otherwise, the buffer stays within a frame and a chunk, and the overflow branch is never taken |
| `PumpProtocol.NoOverflow` | src/container/output_pump.cpp:282-298 | the guard against overflow of the byte count is dead |
| `PumpProtocol.EndExact` | src/container/output_pump.cpp:314-327 | at the end of stdout, unless it is discarded or an error or stop came before, the frame is reported unterminated if and only if bytes remain, and the end of stdout if and only if neither bytes nor frames remain; the worker goes on if and only if stdout is discarded, or there is no error yet, frames are queued and no bytes remain |
| `PumpProtocol.DrainedExact` | src/container/output_pump.cpp:152-341 | over every run without a stop: a worker that gave up at a failure has not read both streams to their ends; any other has read the end of stdout, and both streams to their ends if and only if at that moment stderr had ended, stdout was discarded, or whole frames and nothing else were queued; a drain reported without error is complete unless the output limit ended it |
| `PumpProtocol.StderrLeftUnread` | src/container/output_pump.cpp:152-163 | a run without a stop on which the worker ends with stderr open and readable, against the promise of draining |
| `PumpProtocol.QueueKeeps` | src/container/output_pump.cpp:270-301 | moving frames to the queue keeps the bytes and the bounds, reports the frame limit exactly if the next frame is too long, and otherwise leaves a whole frame waiting only behind a full queue |
| `PumpProtocol.PollExact` | src/container/output_pump.cpp:253-268 | stdout is polled unless a whole frame waits or nothing is buffered and the queue is full: it is held back only while a receiver can take a frame |
| `PumpProtocol.CheckExact` | src/container/output_pump.cpp:196-210 | the worker ends exactly at a stop, an error or the ends of both streams; until its end stderr stays in the poll set, and nothing is polled only while the queue is full |
| `PumpProtocol.CauseExact` | src/container/output_pump.cpp:213-375 | the first error names its cause, case by case in both directions; bytes enter exactly when read, accounted and kept; a stream ends exactly when its end is read |
| `PumpProtocol.TurnsExact` | src/container/output_pump.cpp:225-250 | after the poll every polled stream that is ready is read, stdout first, then stderr if due; the worker ends exactly at an error or a failed poll |
| `PumpProtocol.FirstErrorStays` | src/container/output_pump.cpp:381-387 | the first error is never replaced, and a stop is final |
| `PumpObject.OutputPump.QueueBufferedFrames` | src/container/output_pump.cpp:270-301 | the loop over the buffer reaches the state of the specification |
| `PumpObject.OutputPump.StdoutPollEnabled` | src/container/output_pump.cpp:253-268 | the branches queue what they can and enable polling exactly when the specification does |
| `PumpObject.OutputPump.CheckOnce` | src/container/output_pump.cpp:196-210 | the decision under the mutex reaches the state of the protocol's check |
| `PumpObject.OutputPump.PollAnswered` | src/container/output_pump.cpp:225-250 | what is made of the answer of the poll reaches the state of the protocol |
| `PumpObject.OutputPump.ReadStdoutOnce` | src/container/output_pump.cpp:303-341 | every result of the read leads to the state of the specification and says whether the worker goes on |
| `PumpObject.OutputPump.ReadStderrOnce` | src/container/output_pump.cpp:343-375 | every result of reading stderr leads to the state of the protocol |
| `PumpObject.OutputPump.ReceiveFrame` | src/container/output_pump.cpp:133-150 | the oldest frame is handed out and its bytes given back, or the error is reported once there are no more |
| `Lines.SplitWire` | src/container/output_pump.cpp:270-301 | frames in front of a byte string are its first lines |
| `ResourceMonitor.RunArbitrates` | src/container/resource_monitor.cpp:58-137 | over every run the callback is called at most once, with the cause of the first event that brings one forward; a throwing callback makes it a supervisor error; nothing later changes it; the count is the sum of the bytes accounted, saturated |
| `ResourceMonitor.AccountAnswers` | src/container/resource_monitor.cpp:58-74 | accounting answers true if and only if nothing has finished, no event before has brought a cause forward, and all bytes accounted stay within the limit |
| `ResourceMonitor.RequestAnswers` | src/container/resource_monitor.cpp:76-87 | a request is answered true if and only if it is not natural, nothing has finished and no event before brought a cause forward; then the callback is called once, with its cause |
| `ResourceMonitor.WallOutputMonitor.AccountTerminalOutput` | src/container/resource_monitor.cpp:58-74 | the branches of the accounting reach the state and answer of the specification without overflow |
| `ResourceMonitor.WallOutputMonitor.RequestTermination` | src/container/resource_monitor.cpp:76-87 | natural causes and late requests are refused and change nothing |
| `ResourceMonitor.WallOutputMonitor.DeadlinePassed` | src/container/resource_monitor.cpp:115-123 | the deadline forces its cause unless something ended the wait before |
| `JsonGuard.GuardExact` | src/control/apple_container_session_runtime.cpp:114-304 | the recogniser accepts a text if and only if it is a JSON text by sections 2 to 7 of RFC 8259 (strings as far as the decoder accepts them) whose values are at depth at most 32 and whose objects repeat no decoded key |
| `JsonGuard.ValueSound` | src/control/apple_container_session_runtime.cpp:280-300 | whatever is accepted as a value is the text of a grammatical value within the depth that is left, without repeated keys |
| `JsonGuard.ValueComplete` | src/control/apple_container_session_runtime.cpp:280-300 | the text of every such value is accepted and exactly that text is taken |
| `JsonGuard.NumberSound` | src/control/apple_container_session_runtime.cpp:170-216 | what the number branch accepts is a number of section 6 of RFC 8259 |
| `JsonGuard.NumberComplete` | src/control/apple_container_session_runtime.cpp:170-216 | every such number is taken whole when nothing behind it could continue it |
| `JsonText.RfcIsDelimited` | src/control/apple_container_session_runtime.cpp:132-160 | every string of section 7 of RFC 8259 passes the delimiting scan, so that only the decoder decides |
| `JsonGuardObject.DuplicateKeyGuard.Check` | src/control/apple_container_session_runtime.cpp:118-121 | the object's answer is exactly whether the input is such a text, and it terminates on every input |
| `JsonGuardObject.DuplicateKeyGuard.Value` | src/control/apple_container_session_runtime.cpp:280-300 | the mutually recursive methods move the position exactly over the value the specification takes |
| `JsonGuardObject.DuplicateKeyGuard.Object` | src/control/apple_container_session_runtime.cpp:218-252 | the loop with its set of keys takes exactly the members the specification takes |
| `JsonGuardObject.DuplicateKeyGuard.StringValue` | src/control/apple_container_session_runtime.cpp:132-160 | the scan for the closing quote decodes and skips exactly one string |
| `JsonGuardObject.DuplicateKeyGuard.ReadNumber` | src/control/apple_container_session_runtime.cpp:170-216 | the number branches skip exactly one number |
| `JsonlSink.RunRetains` | src/audit/jsonl_sink.cpp:218-252 | over every run from a file of whole non-blank lines within the cap the file is exactly the longest suffix of all accepted records that fits the cap, and the count is its size |
| `JsonlSink.RunKeeps` | src/audit/jsonl_sink.cpp:218-252 | over every run from any file within the cap, blank lines and an unterminated rest included: while the accepted records fit behind it the file is itself and they; from then on it is exactly the longest run of non-blank lines at the end of all there have been that fits the cap |
| `JsonlSink.RecordStands` | src/audit/jsonl_sink.cpp:218-252 | an accepted record stands as a line of its own if and only if the file was empty, ended with a newline, or was truncated to make room; otherwise it is glued to the unterminated rest |
| `JsonlSink.DroppedExact` | src/audit/jsonl_sink.cpp:218-252 | a record that could never fit under the cap is dropped and changes nothing; every other one ends the file |
| `JsonlSink.RunBounded` | src/audit/jsonl_sink.cpp:218-307 | whatever the existing file and whatever is recorded, the count is the size of the file and never exceeds the cap |
| `JsonlSink.NewestIsLongest` | src/audit/jsonl_sink.cpp:113-185 | what truncation keeps is a suffix of non-blank whole lines that fits, and the suffix one line longer does not fit or begins with a blank line |
| `JsonlSink.NewestUnique` | src/audit/jsonl_sink.cpp:113-185 | it is the only suffix with that property |
| `JsonlSink.ScanBack` | src/audit/jsonl_sink.cpp:140-174 | the backward scan over the window keeps exactly that suffix of the lines that are provably complete |
| `JsonlSink.TruncateOldest` | src/audit/jsonl_sink.cpp:113-185 | window, budget and scan together write back what the specification says |
| `JsonlSink.OpenedExact` | src/audit/jsonl_sink.cpp:113-185 | bounding any oversized file, blank lines and an unterminated rest included, keeps exactly the longest run of non-blank lines at its end that lies within the window, unless a line begins exactly at the edge of the window and no blank line follows; then exactly the oldest line of that run is lost |
| `JsonlSink.OpenedRecords` | src/audit/jsonl_sink.cpp:295-307 | of a file of whole non-blank lines the longest fitting suffix is kept if and only if no line begins exactly at the edge of the window |
| `JsonlSink.OpenedLosesLine` | src/audit/jsonl_sink.cpp:149-155 | a journal of two lines whose second fits the cap and is lost when the sink is opened |
| `JsonlSink.Sink.Record` | src/audit/jsonl_sink.cpp:218-252 | the branches of recording reach the file and count of the specification |
| `MutationTable.AtMostOnce` | src/control/receipt_session_handlers.cpp:691-741 | over every run, behind a successful operation whose result was encoded its key runs no operation |
| `MutationTable.AnswerExact` | src/control/receipt_session_handlers.cpp:691-741 | every answer over every run: the operation runs exactly if the material can be digested, no recorded call has its key and there is room; a success is that of this call or of the same recorded one; failure, conflict, capacity and digest errors each have exactly their own case; and the table is the calls that left a record |
| `MutationTable.TableExact` | src/control/receipt_session_handlers.cpp:728-740 | after every run the table holds exactly the calls that ran, succeeded and were encoded, one for each key |
| `MutationTable.RecordStays` | src/control/receipt_session_handlers.cpp:728-740 | a record, once in the table, never changes |
| `MutationTable.RetryRepeats` | src/control/receipt_session_handlers.cpp:709-719 | an identical retry at any later time gets the recorded result and runs nothing |
| `MutationTable.ChangeRefused` | src/control/receipt_session_handlers.cpp:709-719 | a later request with the same key and another method or payload is refused and runs nothing, unless the two digests collide |
| `MutationTable.RunBounded` | src/control/receipt_session_handlers.cpp:720-724 | the table never exceeds its bound |
| `MutationTable.AtMostOnceExact` | src/control/receipt_session_handlers.cpp:725-741 | after a successful operation no continuation of the run has another for its key if and only if the encoder accepted the result |
| `MutationTable.RunsTwice` | src/control/receipt_session_handlers.cpp:725-741 | if the encoder refuses the result of a successful operation, the same request sent once more runs it again |
| `MutationTable.MaterialInjective` | src/control/receipt_session_handlers.cpp:59-71 | the digested material determines method and payload |
| `MutationTable.SessionMutations.Handle` | src/control/receipt_session_handlers.cpp:691-741 | the handler's branches reach the table and answer of the specification and run the operation exactly when it says |

## Left out

- File descriptors, permissions, locks, inode checks and path handling: every system call is an outcome that succeeds or fails.
- The removal of a half-created journal file after a failed creation: no journal exists then.
- Rejection of a malformed key string: keys are their decoded bytes.
- `confirms_terminal` of the producer beyond `ContainsExact`, and the configuration, key loading and wiping of the producer.
- TranscriptEvaluator.TranscriptEvaluator.constructor: models the object after the fixture and its binding have passed; the JSON decoding of the fixture and the digests compared there are left out.
- Evaluator.VerdictIsEvidence: the fixture digest and the matched context digest are opaque strings.
- AuditChain.HeadDeterminesHistory: paths longer than their 32-bit length prefix are excluded, because no path of the system is.
- JournalObject.ReceiptJournal.constructor: takes over the state that creating or opening arrived at; the two are modelled by `CreateState` and `Open`.
- CrashRecovery.DurableForever: a loss of power leaves some prefix of what was written since the last sync; bytes damaged or reordered by the file system are left out.
- Reservations.RunKeeps: a thread reads the anchor and the capacity in one step each, as the journal's own mutex makes them.
- PumpProtocol.StepKeeps: wake-ups, condition variables and closing of descriptors; only safety is stated, not progress.
- ResourceMonitor.RunArbitrates: the deadline is an event that may come at any time; clocks and elapsed times are left out.
- JsonGuard.GuardExact: what a string decodes to is a parameter; every string of the standard reaches it (`JsonText.RfcIsDelimited`).
- JsonlSink.RunKeeps: system calls that succeed; after a failed write the source's count and file may differ.
- MutationTable.SessionMutations.Handle: request parsing, the error texts and the operation itself, which is a foreign call with a given result.
- MutationTable.RunsTwice: whether the JSON encoder can refuse the small result record is a question about a foreign library.
- Deployment.DeployedDigests: for a key longer than a block or an input longer than the hash admits the code returns an error where `Deployed` answers zeros; on accepted records of a 32-byte key this never happens (`Deployment.MacIsHmac`).
- Servers, transports, the container runtimes and the session registry.
