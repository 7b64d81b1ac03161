# Mbed TLS messaging layer: model and proofs

A Dafny model of the parts of Mbed TLS where bytes, buffers and state machines meet, with
proofs of what they promise. It covers the DTLS record and handshake messaging layer of
`library/ssl_msg.c` (reassembly, sending flights, counters, replay protection, record
protection, datagram budget, back-off), the defragmentation of TLS handshake messages in the
same file, the MPS reader, session ticket keys, the session cache, and the TLS 1.3 Certificate
message. Check it with `dafny verify dfyconfig.toml`.

How it is laid out:

| files | contents |
|---|---|
| `Bytes`, `Bitmask` | bytes, big-endian numbers, bits; the reassembly bitmap |
| `Reassembly`, `HsBuffer` | DTLS reassembly and buffering: on values, and in the shared allocation of a slot |
| `DtlsReading`, `DtlsReceiver` | the loop that reads DTLS records: on values, and the receiver object |
| `DtlsDelivery`, `DtlsProgress`, `DtlsEarly`, `DtlsPacking` | about that loop: delivery in order, progress, what arrives early and what each record ends in, and several fragments in one record |
| `OutCounter`, `DatagramBudget`, `Flight`, `FlightProgress`, `FlightPacking`, `FlightRun`, `FlightDelivery`, `FlightSender` | sending a flight: counters and epochs, room in a datagram, one turn of the loop on values, termination and epochs, packing of records into datagrams, runs of calls, what the receiver gets, and the sender object |
| `AntiReplay`, `Backoff` | the replay window; the retransmission timer |
| `Hmac`, `RecordFormat`, `RecordAcceptance`, `CbcPadding`, `RecordProtection` | record protection: format and round trip on values, which records are accepted, and the record buffer changed in place |
| `HsStream`, `TlsReader` | the TLS handshake stream on values, and the input buffer |
| `MpsStream`, `MpsReader` | the byte stream an MPS reader stands for, and the reader |
| `Ticket`, `TicketService`, `CacheModel`, `SessionCache`, `CertificateFormat`, `CertificateErrors`, `Certificate` | tickets, and a server that issues and takes them; the cache as a map with expiry and as a linked list; the Certificate message as a format, what is answered when it is wrong, and in a buffer |

Code that works in place is modelled as classes over arrays and fields, and each method is
proved against a function on values; the properties are proved of those functions, in terms that do
not use them: bytes, numbers and the calls of a run. Whole runs
are methods that create the object, apply any sequence of calls to it and equate everything that
came out with the run on values, together with the property of that run:
`DtlsReceivers.Session`, `FlightSenders.Session`, `OutCounters.Run`, `AntiReplay.Connection`,
`TlsReaders.Session`, `MpsReaders.Run`, `TicketService.Service`, `SessionCaches.Serve`,
`Backoff.Silence`.

The cryptography behind PSA is a parameter: functions of which only the inverse and length
properties are assumed (`RecordFormat.Ideal`, `Tickets.Ideal`), where needed, and shown to be
possible. Random bytes, clocks, the answers of the transport and the verdicts of the X.509 parser
are parameters, too.

## Findings

Where the code does not keep a property on all inputs, the model keeps the code and states
exactly when the property holds, with an input for which it does not:

- Several handshake fragments in one DTLS record: the receiver skips the length of the whole
  message after each one, as the note at `library/ssl_msg.c:4473-4489` suspects. It looks at
  starts of fragments only, if and only if each such skip lands on one or at or past the end of
  the record, and it looks at all of them if and only if all but the last are whole messages
  (`DtlsPacking.LooksAtStartsIffLands`, `DtlsPacking.LooksAtAllIffWhole`). Where it does not
  land, the body of one message is handed up as another (`DtlsPacking.ForgedIsDelivered`).
- A flight that is resumed in the middle of Finished while the datagram in progress has no room
  for more of it: the epochs are swapped back and not swapped again, and they stay exchanged. The
  rest of Finished goes out under the old transform, and so does the whole of Finished in every
  later transmission, with all that comes before it under the new one, until another such call
  exchanges them once more. The records of a call are in their epochs if and only if the calls so
  far that exchange the transforms are even in number, and all records of a run are if and only if
  no call writes while they are odd (`FlightRun.RunEpochs`, `FlightRun.AllInEpochsIff`; one call in
  `FlightProgress.CallEpochs`; inputs in `FlightProgress.FinishedSplitOverEpochs` and
  `FlightProgress.NextFlightInverted`).
- The sending loop comes to its end, with a transport that takes everything, if and only if nothing
  is left to be written, or the datagram in progress is not too long for a smaller MTU and an empty
  datagram has room for some of every item that is left, under the transform the item goes out
  with; in the middle of Finished, under one of the two. Else it fails at once, where the datagram
  is too long, or spins for ever (`FlightProgress.EndsIffCanBeSent`, `FlightProgress.Livelock`). Some
  of an item is 1 byte of a ChangeCipherSpec, 12 bytes of a message without a body, 13 of any other.
- A DTLS datagram with 1 to 12 bytes behind its last record: these are not dropped as an invalid
  record, though a datagram that consists of nothing else is, and the comment at
  `library/ssl_msg.c:3986-3993` promises it for all invalid records; reading fails with an internal
  error, then and ever after (`library/ssl_msg.c:1917-1928`). It does so exactly when such bytes are
  reached with nothing left of the record before them (`DtlsProgress.InternalErrorIffStuck`,
  `DtlsProgress.StuckForEver`).
- An MPS reader pauses after a get that failed for lack of data if and only if the get found
  something and the accumulator has room. The documentation promises a pause whenever something is
  not committed (`library/mps_reader.h:289-292`) and tells the consumer to try again after reclaim
  and feed (`library/mps_reader.h:321-324`); but where the fragment was used up exactly, reclaim
  answers DATA_LEFT, with any accumulator (`MpsStreams.PausesIffRoom`, `MpsStreams.UsedUpExactly`,
  `MpsStreams.NoPauseWithRoom`; `library/mps_reader.c:347-361`).
- Hidden content type 0: the inner plaintext does not come back (`RecordFormat.RoundTrip`).
- A certificate of an unknown algorithm and without extensions is ignored, except as the last one
  of the list, where its error code becomes the result (`CertificateFormat.ParseExact`,
  `CertificateFormat.OrderMatters`).
- The age of a cache entry is converted to int: the test is right exactly for ages up to the
  timeout and for those whose low 32 bits are above the timeout and below 2^31
  (`CacheModel.ExpiredIsAge`), so an entry comes back to life at 2^31 seconds
  (`CacheModel.ExpiryIsNotForEver`). The search for the oldest entry finds one if and only if all
  timestamps are positive or the last one is 0 (`CacheModel.OldestIsOldest`). An ID that is too
  long is refused only after an entry has been given up for it, exactly when the cache is full or
  something has expired (`CacheModel.TooLongCostsEntry`).
- A session of more than 65535 bytes gives a ticket of 0 bytes and success
  (`Tickets.TicketContext.Write`), if the buffer could hold the session; so a write is answered
  with a ticket exactly when there is room (`TicketService.IssuedIffRoom`).

## Model

| member | source | states |
|---|---|---|
| `DtlsReceivers.Session` | library/ssl_msg.c:4002-4182 | Over any run from the start, with any limits: the transcript and how each call of read ended are those of the run on values; and for every list of messages, as long as the receiver finds slices of them wherever it looks, the transcript is a contiguous run of them in message_seq order, each once, byte for byte with the unfragmented header |
| `DtlsDelivery.OrderedDelivery` | library/ssl_msg.c:4002-4182 | The same of the run on values, at every point of it: ordered delivery among invalid records, records of other kinds, epochs and flights |
| `DtlsDelivery.ReadDelivers` | library/ssl_msg.c:4002-4082 | One call of read hands up the next message of the sender, or leaves message_seq and transcript alone |
| `DtlsProgress.ReadProgress` | library/ssl_msg.c:4002-4423 | Progress: when every byte of the next message is buffered or in fragments in the first datagrams that have arrived, in whatever order, among whatever other fragments and among records that are dropped (though not behind one in the same datagram), it fits the limits, and no record taken in up to there ends reading, then read hands it up: no fragment of the next message is evicted or lost. A record kept from the epoch before counts as soon as nothing is left of a datagram |
| `DtlsProgress.RunProgress` | library/ssl_msg.c:4002-4423 | The same for a read at any point of any run |
| `DtlsProgress.ReadWithMore` | library/ssl_msg.c:4002-4082 | A read that does not run out of datagrams does the same when more of them have arrived |
| `DtlsProgress.InternalErrorIffStuck` | library/ssl_msg.c:1895-1928 | A turn of the reading loop fails with an internal error if and only if nothing is left of the record at hand and the rest of its datagram is shorter than a record header |
| `DtlsProgress.StuckForEver` | library/ssl_msg.c:1895-1928 | From then on every read fails so and nothing enters the transcript, whatever arrives and whatever the handshake layer does |
| `DtlsEarly.ReadKeepsEarly` | library/ssl_msg.c:4605-4660 | A handshake record of the next epoch that a read meets, while none is kept and it fits the limit, is kept when the read ends, unless room was made for the next message |
| `DtlsEarly.EarlyRecordIsOffered` | library/ssl_msg.c:4545-4660 | In any run such a record is there when its epoch begins, unless room was made or the flight was done in between; its bytes count as arrived as soon as nothing is left of a datagram |
| `DtlsEarly.EarlyMessageIsHandedUp` | library/ssl_msg.c:4545-4660 | So a message that overtook the change of epochs is handed up by the first read after it |
| `DtlsEarly.EarlyByteIsThere` | library/ssl_msg.c:4227-4423 | In any run a byte of one of the next four messages, read in a fragment that belongs to its slot or has room for one, is in the buffer as long as its message is awaited, unless room was made or the flight was done in between |
| `DtlsEarly.EarlyCcsIsHandedUp` | library/ssl_msg.c:4096-4242 | A ChangeCipherSpec that is read before it is awaited is handed up by the first read that awaits it, unless the flight was done in between |
| `DtlsEarly.FlightDoneForgets` | library/ssl_msg.c:2395-2420 | When a flight is done nothing of it is kept, and what comes does not depend on what was buffered |
| `DtlsEarly.HeldInRun` | library/ssl_msg.c:4185-4660 | At any point of any run the memory held for messages, with their bitmaps, and for the future record is within the limit, and that record is a handshake record at most one epoch ahead |
| `DtlsEarly.AlertsEnd` | library/ssl_msg.c:4914-4952 | What each alert ends in, by its bytes: level 2 is fatal, [1, 0] closes, [1, 100] is handed up, any other is passed over, and one that is not 2 bytes is invalid |
| `DtlsEarly.OthersEnd` | library/ssl_msg.c:4879-4972 | A ChangeCipherSpec is the byte 1 or invalid, handed up if it is awaited and else remembered; application data are passed over |
| `DtlsEarly.HandshakesEnd` | library/ssl_msg.c:2928-3014 | A handshake message is invalid, handed up, dropped or buffered by the numbers in its header |
| `DtlsEarly.RecordsEnd` | library/ssl_msg.c:4691-4835 | Which records are taken in, put aside, refused, or take the rest of their datagram with them |
| `DtlsReading.TurnGoesOn` | library/ssl_msg.c:4009-4059 | Every turn of the reading loop that does not end it uses up a datagram, a record or bytes of the record at hand, for any input, so reading terminates |
| `DtlsReading.ReadOk` | library/ssl_msg.c:4002-4082 | Budget, slots and their numbers are in order after any reading, and the caller never sees the internal codes |
| `DtlsReading.LoadedIsDone` | library/ssl_msg.c:4130-4180 | A message that is loaded from the buffer passes the checks of a received one and fits the input buffer |
| `DtlsPacking.LooksAtStartsIffLands` | library/ssl_msg.c:4471-4500 | For any fragments packed into a record, the receiver looks at starts of fragments only, if and only if each skip by a whole length lands on one or at or past the end, a condition on lengths alone |
| `DtlsPacking.LooksAtAllIffWhole` | library/ssl_msg.c:4471-4500 | It looks at each fragment and nowhere else if and only if all but the last are whole messages |
| `DtlsPacking.LandsIsInSync` | library/ssl_msg.c:4471-4500 | Slices of a sender packed so that every skip lands meet the condition of ordered delivery |
| `DtlsPacking.ForgedIsDelivered` | library/ssl_msg.c:4471-4500 | A record of two slices, in a run of the receiver: the transcript gets the body of message 1 as message 0 |
| `DtlsReceivers.DtlsReceiver.FreeSlot` | library/ssl_msg.c:6073-6088 | The slot is empty, its bytes are given back to the budget, nothing else changes |
| `DtlsReceivers.DtlsReceiver.FreeFuture` | library/ssl_msg.c:4528-4542 | The future record is gone and its bytes are given back |
| `DtlsReceivers.DtlsReceiver.MakeRoom` | library/ssl_msg.c:4185-4224 | Evicts exactly what the specification says, future record first, then the most distant slots |
| `DtlsReceivers.DtlsReceiver.BufferFuture` | library/ssl_msg.c:4605-4660 | Equals keeping the record on values: one of the next epoch is kept if and only if it is a handshake record, the only one, and fits the budget (`DtlsEarly.RecordsEnd`), and what becomes of it is in `DtlsEarly.EarlyRecordIsOffered` |
| `DtlsReceivers.DtlsReceiver.OpenSlot` | library/ssl_msg.c:4335-4379 | A new slot has the final header, no bytes yet, and its size is charged to the budget |
| `DtlsReceivers.DtlsReceiver.AddFragment` | library/ssl_msg.c:4380-4405 | The fragment is copied to its place, its range is marked, and the slot is complete if and only if all ranges are there |
| `DtlsReceivers.DtlsReceiver.BufferMessage` | library/ssl_msg.c:4227-4423 | Remembers a ChangeCipherSpec or buffers a handshake message or fragment, as on values, result code included |
| `DtlsReceivers.DtlsReceiver.BufferHandshake` | library/ssl_msg.c:4245-4423 | For a handshake message or fragment the whole operation equals the one on values, result code included |
| `DtlsReceivers.DtlsReceiver.PrepareHandshake` | library/ssl_msg.c:2928-3014 | Verdict on a handshake record: invalid, early, old, fragment or next, by header and message_seq |
| `DtlsReceivers.DtlsReceiver.ConsumeCurrentMessage` | library/ssl_msg.c:4427-4514 | Exactly the current message is taken off the front of the record |
| `DtlsReceivers.DtlsReceiver.LoadBufferedMessage` | library/ssl_msg.c:4096-4182 | Hands up the remembered ChangeCipherSpec or the complete next message, and else changes nothing |
| `DtlsReceivers.DtlsReceiver.LoadBufferedRecord` | library/ssl_msg.c:4545-4602 | A kept record is loaded when its epoch has come and the datagram is used up |
| `DtlsReceivers.DtlsReceiver.UpdateHandshakeStatus` | library/ssl_msg.c:3121-3163 | The message enters the transcript, message_seq goes up by one, slot 0 is freed and the others shift down, and nothing else changes |
| `DtlsReceivers.DtlsReceiver.GetNextRecord` | library/ssl_msg.c:4665-4852 | Equals the step on values: a record kept for this epoch or the next of the datagrams is taken in, put aside, passed over, or dropped with the rest of its datagram; an empty datagram is the end of the connection, and a rest too short for a record an internal error |
| `DtlsReceivers.DtlsReceiver.TakeRecord` | library/ssl_msg.c:4691-4835 | One record out of a datagram, by header, epoch, authenticity and length |
| `DtlsReceivers.DtlsReceiver.ObtainRecord` | library/ssl_msg.c:4011-4043 | The rest of the record at hand comes first, then a buffered message if the datagram is used up, then a new record |
| `DtlsReceivers.DtlsReceiver.HandleMessageType` | library/ssl_msg.c:4854-4981 | Equals the verdict on values for each kind of record: handed up, buffered, passed over or an error, with what the alerts mean |
| `DtlsReceivers.DtlsReceiver.ReadRecord` | library/ssl_msg.c:4002-4082 | One call equals the reading on values, for any records, errors included |
| `DtlsReceivers.DtlsReceiver.ReadStep` | library/ssl_msg.c:4009-4059 | One turn of the loop equals the one on values |
| `DtlsReceivers.DtlsReceiver.FlightCompleted` | library/ssl_msg.c:2395-2420 | Nothing is kept across flights, and nothing else changes |
| `Reassembly.MakeSpaceMinimal` | library/ssl_msg.c:4185-4224 | Space is made by dropping the future record, then the most distant slots, never one more than needed; it fails only for a message larger than the whole limit |
| `Reassembly.TotalIsHeld` | library/ssl_msg.c:2906-2919 | The counter that is compared with the limit is the memory held: 12 bytes, the body, and a bit for each of its bytes if it comes in fragments, for each slot, and the size of the future record |
| `Reassembly.EvictSlotsFarthestFirst` | library/ssl_msg.c:4205-4222 | The slots kept are those nearest to the next message, as many as possible |
| `Reassembly.BufferFragmentOk` | library/ssl_msg.c:4227-4423 | In every reachable state the bytes held do not exceed the limit and each slot is well-formed |
| `Reassembly.BufferFragmentNumbered` | library/ssl_msg.c:4256-4276 | Slot k always holds the message that comes k after the next one, with its final header, whatever arrives and whatever is evicted |
| `Reassembly.AdvanceNumbered` | library/ssl_msg.c:3148-3159 | Also after the shift |
| `Reassembly.AdvanceOk` | library/ssl_msg.c:3148-3159 | Shifting keeps the budget and the slots in order |
| `Reassembly.NextMessageRefusedOnlyIfTooLarge` | library/ssl_msg.c:4277-4335 | Whatever the limits, the next expected message is refused for space if and only if its 12 bytes of header, its body, and its bitmap if it is fragmented, exceed the buffering limit, though header and body do not exceed the content limit |
| `Reassembly.RefusesIffNotAmple` | library/ssl_msg.c:4277-4335 | With given limits that can happen if and only if the longest accepted message with its bitmap exceeds the buffering limit; with the default ones it cannot |
| `Reassembly.BufferFragmentErrors` | library/ssl_msg.c:4227-4423 | The internal error is for messages of the past and for nothing else, and no fragment brings in a future record |
| `Reassembly.BufferFragmentFaithful` | library/ssl_msg.c:4227-4423 | After any slice of the sender's messages every slot is a partial copy of its message, with the unfragmented header |
| `Reassembly.LoadableIsCanon` | library/ssl_msg.c:4130-4180 | What is loaded from slot 0 is the next message, byte for byte |
| `Reassembly.WholeIsCanon` | library/ssl_msg.c:2795-2803 | A message that is not a proper fragment is the sender's message with its header |
| `Reassembly.CompleteIffCovered` | library/ssl_msg.c:4380-4405 | A fragmented message is complete if and only if the ranges received cover it, whatever their order and overlap |
| `Bitmask.Set` | library/ssl_msg.c:2842-2880 | Sets exactly the bits offset to offset + len, most significant first, and disturbs no byte in front of the bitmap |
| `Bitmask.SetFromByteBoundary` | library/ssl_msg.c:2869-2879 | The same for whole bytes and the last partial one |
| `Bitmask.Check` | library/ssl_msg.c:2886-2903 | Succeeds if and only if all of the first len bits are set |
| `HsBuffers.FreshBuffer` | library/ssl_msg.c:4343-4366 | The buffer starts with the header as if not fragmented, and is zero behind it |
| `HsBuffers.Fill` | library/ssl_msg.c:4380-4405 | Message bytes and bitmap share an allocation without disturbing each other: after the copy the buffer stands for the slot with the fragment accepted |
| `HsBuffers.ShiftDown` | library/ssl_msg.c:3148-3159 | The slots move down by one and the last is empty |
| `HsBuffers.AcceptBytes` | library/ssl_msg.c:4384-4401 | What the copy leaves in the buffer is the slot with the fragment |
| `OutCounters.OutCounter.SwapEpochs` | library/ssl_msg.c:2186-2214 | Transform and counter change places with the alternative ones, unless the transforms are the same |
| `OutCounters.OutCounter.Next` | library/ssl_msg.c:2674-2756 | The 8-byte counter is used and replaced by the one that follows in its epoch; wrapping is reported exactly at the number 2^48 - 1 |
| `OutCounters.Run` | library/ssl_msg.c:2674-2756 | Over any run of writing and swapping what is emitted, and whether the run was stopped, are those of the run on values; and from counters in different epochs no counter is emitted twice, and only the one the run stops at is the last of an epoch |
| `OutCounters.EmissionDistinct` | library/ssl_msg.c:2674-2756 | On values, for any run of writing and swapping from counters in different epochs: no counter is emitted twice, and the run has stopped if and only if the last one emitted is the last of an epoch |
| `OutCounters.FollowingNumber` | library/ssl_msg.c:2741-2752 | Counting with carry adds one to the 48-bit number, and is at the last one exactly when all six bytes are full |
| `OutCounters.NoncesDistinct` | library/ssl_msg.c:766-779 | Then no AEAD nonce repeats under a transform |
| `RecordFormat.NonceTls12` | library/ssl_msg.c:766-779 | With 4 fixed and 8 explicit bytes the nonce is one behind the other (section 3 of RFC 5288) |
| `RecordFormat.NonceTls13` | library/ssl_msg.c:766-779 | With 12 fixed bytes the counter is XORed to the last 8 (section 5.3 of RFC 8446) |
| `RecordFormat.NonceInjective` | library/ssl_msg.c:766-779 | The nonce builder is injective in the counter |
| `DatagramBudget.ExpansionBounds` | library/ssl_msg.c:5299-5352 | In DTLS 1.2 the estimated expansion is an upper bound of the true size of a protected record in every mode, with connection ID |
| `DatagramBudget.BudgetSound` | library/ssl_msg.c:323-374 | A payload within the budget, once protected, fits the remaining datagram, so the size check at 2713-2728 never fails |
| `DatagramBudget.BudgetSpent` | library/ssl_msg.c:2764-2779 | After a record that used the budget nothing more fits, and the datagram is flushed |
| `DatagramBudget.ExpansionTight` | library/ssl_msg.c:5299-5352 | The estimate is no more than needed: there is a content for which it is exact, if and only if it is not CBC with MAC first, a connection ID and a MAC that is not whole blocks long |
| `DatagramBudget.BudgetIsMost` | library/ssl_msg.c:323-374 | The budget is the largest: one byte more exceeds the datagram or the content limit; and it fails exactly when the datagram is too long for the MTU |
| `Flight.TransmitTiles` | library/ssl_msg.c:2239-2390 | For any budgets and blocked writes, what has been written is the flight up to the current position: each record starts where the one before ended, with the right offset and length fields |
| `Flight.TiledOnce` | library/ssl_msg.c:2239-2390 | So every byte of every message before the position is sent exactly once, and none after it |
| `FlightDelivery.FragmentIsSlice` | library/ssl_msg.c:2330-2350 | A fragment that is written is a slice of its message in the receiver's sense |
| `FlightDelivery.FlightReassembles` | library/ssl_msg.c:2239-2390 | Once the flight is out, its fragments in any order and repetition make up each message, with the unfragmented header |
| `FlightProgress.DtlsRecordsFit` | library/ssl_msg.c:5299-5352 | The assumption about record sizes holds of the DTLS 1.2 transforms |
| `FlightProgress.WriteFits` | library/ssl_msg.c:2713-2779 | The internal error for a record that is too long is unreachable from flight transmission |
| `FlightProgress.WritingTurn` | library/ssl_msg.c:2260-2368 | A turn with room writes one record, makes progress and does not fail |
| `FlightProgress.OneTurn` | library/ssl_msg.c:2258-2372 | Unless the datagram is too long for the MTU no turn fails, and with a transport that takes everything each one gets nearer to the end unless an empty datagram has no room |
| `FlightProgress.EndsIffCanBeSent` | library/ssl_msg.c:2239-2390 | For any state of the sender, resumed ones included: with a transport that takes everything the loop comes to its end if and only if nothing is left, or the datagram in progress is not too long and an empty datagram has room for some of all that is left |
| `FlightProgress.FlightEndsIffAllFit` | library/ssl_msg.c:2239-2390 | In particular for a flight from its start: if and only if all items fit |
| `FlightProgress.TransmitTerminates` | library/ssl_msg.c:2258-2372 | Then a call ends after at most twice the remaining bytes and messages |
| `FlightProgress.TransmitSpins` | library/ssl_msg.c:2306-2321 | Else it never ends, whatever the transport does |
| `FlightProgress.Livelock` | library/ssl_msg.c:2306-2321 | With an empty datagram and no room the loop never leaves its state |
| `FlightPacking.TransmitPacks` | library/ssl_msg.c:2239-2390 | In any call, for each turn: with packing, a datagram is handed over only when the item has no room behind what is waiting or when nothing more fits behind the record; without, after every record; and at the end of the flight. What the transport does not take keeps waiting |
| `FlightPacking.SharesDatagram` | library/ssl_msg.c:2759-2784 | So with packing a record stays in the datagram as long as there is room behind it, and the next one that fits goes behind it |
| `FlightProgress.RoomForIff` | library/ssl_msg.c:2306-2321 | An item has room in an empty datagram if and only if 1 byte of a ChangeCipherSpec, 12 of a message without a body or 13 of any other fit with the expansion |
| `FlightProgress.TransmitEpochs` | library/ssl_msg.c:2239-2390 | Unless a call starts in the middle of Finished with no room in the datagram, Finished goes out under the new transform and all before it under the old one, and the sender stays in its place |
| `FlightProgress.CallEpochs` | library/ssl_msg.c:2239-2390 | Any call, whatever the MTU and the transport: its records are in their epochs, or in the exchanged ones if and only if it comes back in the middle of Finished with no room in the datagram and the flush blocks or the other transform has room; and so it leaves the sender |
| `FlightRun.RunEpochs` | library/ssl_msg.c:2239-2390 | Over any calls, across the ends of transmissions: the records of each call are in their epochs or in the exchanged ones by the parity of the calls so far that exchange the transforms, and so is the sender between calls |
| `FlightRun.AllInEpochsIff` | library/ssl_msg.c:2239-2390 | All records of a run are in their epochs if and only if no call writes while an odd number of calls have exchanged the transforms |
| `FlightRun.CallsNumbered` | library/ssl_msg.c:2674-2756 | Over any calls no two records carry the same counter, and the sender stops with COUNTER_WRAPPING exactly at the last one of an epoch |
| `FlightRun.CallsByTransform` | library/ssl_msg.c:2674-2756 | Over any calls each record has the epoch its transform started with, and the records under one transform are numbered one after the other from there |
| `FlightRun.EnteringIs` | library/ssl_msg.c:2239-2257 | A call goes on where the last one stopped, or begins with the first message and the transforms exchanged, behind what is waiting |
| `Flight.RecordsAreLogged` | library/ssl_msg.c:2239-2390 | The records a call puts into datagrams are those its log gains |
| `FlightRun.CallsComplete` | library/ssl_msg.c:2239-2390 | Over any calls every transmission that ends has sent each byte of each message once |
| `FlightProgress.FinishedSplitOverEpochs` | library/ssl_msg.c:2271-2321 | A run in which the two halves of Finished go out under different transforms |
| `FlightProgress.NextFlightInverted` | library/ssl_msg.c:2239-2321 | After that run, the flight sent again has all of Finished under the old transform although nothing blocks |
| `FlightSenders.FlightSender.FlushOutput` | library/ssl_msg.c:2056-2112 | Empties the datagram or leaves what the transport did not take |
| `FlightSenders.FlightSender.WriteRecord` | library/ssl_msg.c:2645-2790 | Checks the size, numbers the record, adds it to the datagram and flushes it when nothing more fits or nothing is packed, as on values, of which `FlightPacking.TransmitPacks` says when that is; COUNTER_WRAPPING exactly at the last counter |
| `FlightSenders.FlightSender.TakeTurn` | library/ssl_msg.c:2258-2372 | One turn equals the one on values, and the records with their counters are those it emits |
| `FlightSenders.FlightSender.SendFlight` | library/ssl_msg.c:2239-2390 | A call starts over or resumes and equals the transmission on values, whose packing is `FlightPacking.TransmitPacks`, up to the first record with the last counter of an epoch, and the records with their counters are those it emits |
| `FlightSenders.Session` | library/ssl_msg.c:2239-2390 | Sending, resuming and sending again, over any calls: complete transmissions, all records with their counters, and how the run ended equal the run on values, which stops at the first record with the last counter of an epoch. So each transmission is complete; no two records carry the same counter; the records of each call are in their epochs or exchanged by the parity of the calls so far that exchange the transforms; and all are in their epochs if and only if no call writes while they are exchanged |
| `AntiReplay.ReplayWindow.Check` | library/ssl_msg.c:3215-3239 | Accepts if and only if the number is unseen and less than 64 below every number seen |
| `AntiReplay.ReplayWindow.Update` | library/ssl_msg.c:3244-3272 | The window stands for the seen numbers and the new one |
| `AntiReplay.ReplayWindow.Reset` | library/ssl_msg.c:3176-3180 | The window stands for no numbers |
| `AntiReplay.ShiftRepresents` | library/ssl_msg.c:3252-3264 | Shifting the 64-bit window, by 64 or more too, keeps what it stands for |
| `AntiReplay.SixBytesIsNumber` | library/ssl_msg.c:3182-3190 | The six bytes are the big-endian number |
| `AntiReplay.Connection` | library/ssl_msg.c:3716-3738 | Over a whole connection with epoch changes, a record counts if and only if it is authentic, of the current epoch, unseen and within the window of the plain set of accepted numbers |
| `AntiReplay.NoReplay` | library/ssl_msg.c:3716-3738 | No pair of epoch and number is accepted twice |
| `AntiReplay.AcceptedIff` | library/ssl_msg.c:3716-3738 | A record is accepted if and only if it is authentic, of the current epoch, and no record accepted before in that epoch has its number or one that is 64 or more above it |
| `Backoff.Retransmission.Double` | library/ssl_msg.c:381-413 | Doubling with 32-bit wrap-around gives min(max, 2 * timeout), fails exactly at the maximum, and reduces the MTU after the first time |
| `Backoff.Silence` | library/ssl_msg.c:1964-1980 | Wait k lasts min(max, min * 2^k), and the resends before the handshake times out are exactly ceil(log2(max / min)) |
| `Backoff.ReachesOnce` | library/ssl_msg.c:381-420 | That number is unique |
| `Hmac.CtHmac` | library/ssl_msg.c:57-172 | The constant-flow HMAC is the HMAC of RFC 2104 over the additional data and the first data_len_secret bytes |
| `Hmac.HmacBlocks` | library/ssl_msg.c:100-163 | The outer block is the key XORed with 0x5c and the inner one the key XORed with 0x36, padded with zeros to 64 bytes before (section 2 of RFC 2104) |
| `Hmac.MaskKey` | library/ssl_msg.c:100-122 | The key buffer holds the padded key under each of the two masks in turn |
| `CbcPadding.CheckPadding` | library/ssl_msg.c:1621-1698 | The branch-free check agrees with the plain one on every buffer and strips the padding or nothing; the padding index and the counters, typed as natural numbers, never underflow |
| `RecordFormat.RoundTrip` | library/ssl_msg.c:782-1832 | With ideal primitives and a matching peer, unprotecting what was protected gives content and type back, in every mode, if and only if a hidden type is not zero |
| `RecordFormat.InnerRoundTrip` | library/ssl_msg.c:464-512 | The inner plaintext comes back if and only if its type is not zero, whatever zeros the content ends with |
| `RecordFormat.InnerIsPadded` | library/ssl_msg.c:429-433 | The padding fills up to the granularity with as few zeros as possible |
| `RecordFormat.AddDataBinds` | library/ssl_msg.c:566-733 | Equal additional data mean equal type, version, length and, before TLS 1.3, counter |
| `RecordFormat.AddDataParts` | library/ssl_msg.c:566-733 | Where counter, type, version, connection ID and length are in the additional data |
| `RecordFormat.OpenSealed` | library/ssl_msg.c:1268-1832 | Each mode's decryption undoes its encryption |
| `RecordFormat.OpenSealedCbc` | library/ssl_msg.c:1480-1767 | In CBC, MAC-then-encrypt and encrypt-then-MAC alike |
| `RecordFormat.CbcPadOk` | library/ssl_msg.c:1084-1106 | The minimal padding that is written passes the check and strips to the data |
| `RecordFormat.IdealIsPossible` | library/ssl_msg.c:782-1832 | The assumptions about the primitives can be met |
| `RecordFormat.WrapShows` | library/ssl_msg.c:838-905 | What of a record shows: type 25 with a connection ID, else 23 in TLS 1.3, else its own; and a length that is a multiple of 16 where the type is hidden |
| `RecordAcceptance.OpenIff` | library/ssl_msg.c:1268-1799 | Decryption gives p if and only if the bytes stand for p: content and its HMAC; or a tag that opens to it; or, in CBC, blocks that decrypt to content, HMAC and n bytes n and one more; or HMAC behind IV and blocks. So nothing with a wrong MAC is accepted |
| `RecordAcceptance.OpenErrors` | library/ssl_msg.c:1268-1799 | All others get INVALID_MAC, but for an AEAD that does not keep the length, which is an internal error |
| `RecordAcceptance.CheckMacIff` | library/ssl_msg.c:1737-1767 | The comparison succeeds if and only if the end of the bytes is the HMAC over header fields and what is in front of it |
| `RecordAcceptance.PaddingIff` | library/ssl_msg.c:1621-1698 | The padding passes if and only if the bytes end with n + 1 bytes n, behind room for the MAC |
| `RecordAcceptance.UnwrapIff` | library/ssl_msg.c:1800-1829 | The type is the last byte that is not zero, once for TLS 1.3 and once for a connection ID, for any bytes |
| `RecordAcceptance.UnprotectIff` | library/ssl_msg.c:1268-1832 | A record is accepted as p if and only if its connection ID is ours, what is inside is authentic, and p comes out of it |
| `RecordAcceptance.UnprotectErrors` | library/ssl_msg.c:1268-1832 | Which error each of the others gets: connection ID, MAC, or no type |
| `RecordProtection.RecordBuf.EncryptBuf` | library/ssl_msg.c:782-1266 | Encrypting in place gives the protected record, and fails with the right error exactly when the buffer has no room |
| `RecordProtection.VerdictIffRoom` | library/ssl_msg.c:782-1266 | There is room if and only if the inner plaintexts fit behind the content and what the cipher adds fits before and behind |
| `RecordProtection.RecordBuf.DecryptBuf` | library/ssl_msg.c:1268-1832 | Decrypting in place equals the operation on values, errors included; and it succeeds if and only if the bytes that were in the buffer stand for the record that is in it then: with the right MAC or tag, padding and type |
| `RecordProtection.RecordBuf.BuildInner` | library/ssl_msg.c:464-489 | The inner plaintext is built behind the content, if there is room |
| `RecordProtection.RecordBuf.ParseInnerPlaintext` | library/ssl_msg.c:494-512 | Type and content are read from the back |
| `RecordProtection.RecordBuf.ExtractAddData` | library/ssl_msg.c:566-733 | The additional data as specified |
| `RecordProtection.RecordBuf.SealAead` | library/ssl_msg.c:986-1077 | AEAD in place, with the explicit IV in front where there is one |
| `RecordProtection.RecordBuf.SealCbc` | library/ssl_msg.c:1079-1215 | Padding, encryption and IV, if there is room for each |
| `RecordProtection.RecordBuf.DecryptAead` | library/ssl_msg.c:1322-1431 | AEAD in place: too short, not authentic, or the content |
| `RecordProtection.RecordBuf.DecryptCbc` | library/ssl_msg.c:1434-1767 | Lengths, MAC over the ciphertext, decryption, padding and MAC in the order of the code |
| `RecordProtection.RecordBuf.VerifyMac` | library/ssl_msg.c:1700-1767 | The MAC over the bytes up to the padding is computed without their length showing; there is no error if and only if the check before passed and what was in the buffer is what is in it then, with its HMAC behind it |
| `RecordProtection.BuildNonce` | library/ssl_msg.c:766-779 | The nonce as specified |
| `HsStream.MessagesUnique` | library/ssl_msg.c:2928-2943 | There is one way to read a stream as handshake messages |
| `HsStream.MessagesAppend` | library/ssl_msg.c:3017-3115 | More bytes never change the messages that were complete |
| `HsStream.ReachesIff` | library/ssl_msg.c:2928-3119 | The first n records are taken if and only if each may come where it comes: it fits behind what is open, has at most 2^14 bytes, is empty only where it may be and not the fourth in a row, is of another type only if no message is open, and brings the header of a message it begins |
| `TlsReaders.TlsReader.ConsumeCurrentMessage` | library/ssl_msg.c:4427-4514 | The current message is taken off; what was behind it stays |
| `TlsReaders.TlsReader.GetNextRecord` | library/ssl_msg.c:4665-4852 | A record is read behind what is kept, without touching it, or refused: exactly when it does not fit, is too long, is empty where it must not be, or is the fourth empty one in a row |
| `TlsReaders.TlsReader.MoveFragment` | library/ssl_msg.c:3065-3077 | The fragment is appended to what is there; the error for no room is unreachable |
| `TlsReaders.TlsReader.PrepareHandshakeRecord` | library/ssl_msg.c:2928-3119 | Complete, incomplete, cut header or too long, decided by the bytes put together |
| `TlsReaders.TlsReader.HandleMessageType` | library/ssl_msg.c:4854-4880 | Nothing may interrupt a fragmented message |
| `TlsReaders.TlsReader.ReadRecord` | library/ssl_msg.c:4002-4082 | One call hands up the next message of the stream, or waits because there is none, or fails exactly where the records stop being acceptable |
| `TlsReaders.Session` | library/ssl_msg.c:4002-4082 | However records cut the handshake bytes, the messages handed up are those of the stream, in order, carried by the records up to the first one that is refused or cuts a message header (which are refused: `HsStream.ReachesIff`); the run takes exactly these, and ends well if and only if they are all |
| `MpsReaders.Run` | library/mps_reader.c:146-536 | Over any sequence of calls, failing ones included, what was fed and what the consumer has got and committed are those of the run on values, and the latter is a prefix of the former: nothing is lost, repeated or reordered. Each successful get returned what was desired, or, if it need not be exact, what was left |
| `MpsReaders.WatchedTracks` | library/mps_reader.c:146-536 | What the consumer has got and committed on values is always what was fed, up to where it is |
| `MpsReaders.EachGetIsServed` | library/mps_reader.c:215-381 | In any run on values each successful get moves the position by the bytes desired, or, if it need not be exact, by what is left of the fragment if that is less |
| `MpsReaders.MpsReader.Feed` | library/mps_reader.c:146-212 | Equals feeding the stream; the accumulator is topped up first |
| `MpsReaders.MpsReader.Get` | library/mps_reader.c:215-381 | Equals reading from the stream; the buffer returned is the next slice of what was fed, and has exactly the bytes desired, or, if it need not be exact, what is left of the fragment if that is less |
| `MpsReaders.MpsReader.Commit` | library/mps_reader.c:383-395 | Equals committing on the stream |
| `MpsReaders.MpsReader.Reclaim` | library/mps_reader.c:397-536 | Equals reclaiming on the stream; pauses exactly when a get failed for lack of data |
| `MpsReaders.MpsReader.Backup` | library/mps_reader.c:449-527 | What is not committed is kept in the accumulator; the overflow tests on size_t decide exactly whether it fits |
| `MpsStreams.PauseResume` | library/mps_reader.c:302-361 | After any get that failed for lack of data and any pause and resume, the gets since the last commit and the failed one all succeed on the same bytes |
| `MpsStreams.GetServes` | library/mps_reader.c:215-381 | How a get ends, by what is left, and how many bytes it returns; in the accumulator only up to its old bytes or exactly to where the failed get ended |
| `MpsStreams.FeedTakes` | library/mps_reader.c:146-212 | Feeding is refused while a fragment is attached, and asks for more exactly while the fragments fed are less than what was missing |
| `MpsStreams.ReclaimGivesBack` | library/mps_reader.c:397-536 | How reclaim ends, by what is committed, what is missing and the room; and what it keeps |
| `MpsStreams.PausesIffRoom` | library/mps_reader.c:347-517 | After any get that failed for lack of data, the reader pauses if and only if the get found something and the accumulator can hold what is not committed and what is missing |
| `MpsStreams.UsedUpExactly` | library/mps_reader.c:347-432 | If the get found nothing there is no pause; reclaim answers DATA_LEFT if and only if something is not committed |
| `MpsStreams.NoPauseWithRoom` | library/mps_reader.c:347-432 | Any fragment got to its end: one more get fails and reclaim answers DATA_LEFT, whatever room the accumulator has |
| `MpsStreams.ResumeKeeps` | library/mps_reader.c:163-202 | Feeding until it succeeds loses nothing of what was kept |
| `TicketService.Service` | library/ssl_ticket.c:233-432 | Over any run of writing and parsing the answers are those of the server on values; with a clock that does not go back and fresh key names, a ticket resumes its session for its whole lifetime, and never after; and each ticket is sealed under a secret that was drawn, together with its key name, less than the lifetime before |
| `TicketService.IssuedIffRoom` | library/ssl_ticket.c:233-315 | At any point of any run, a session is answered with a ticket if and only if the buffer has room for 34 bytes and the session (18 and the session, if it has more than 65535 bytes), and else with BUFFER_TOO_SMALL |
| `TicketService.TicketsAreFresh` | library/ssl_ticket.c:61-133 | At any point of any run a ticket is written under a name and secret drawn together, at the start or by one call, less than the lifetime before |
| `TicketService.KeysDrawn` | library/ssl_ticket.c:61-133 | Each key in the slots has the name and the secret of one draw, at its generation time |
| `TicketService.ShortIsBadInput` | library/ssl_ticket.c:338-360 | Anything shorter than 34 bytes is bad input |
| `TicketService.UpdateKeeps` | library/ssl_ticket.c:106-133 | At most one rotation falls into the life of a ticket |
| `Tickets.TicketParses` | library/ssl_ticket.c:338-432 | A ticket parses back to its session while its key is there and its age is within the lifetime |
| `Tickets.ParsedIff` | library/ssl_ticket.c:338-432 | A ticket is accepted if and only if it is one for that session under one of the two keys, and the session is neither too old nor from the future |
| `Tickets.ParsedErrors` | library/ssl_ticket.c:338-432 | Which error the others get: by length, by name, by tag, by content and by time, in this order |
| `Tickets.IdealIsPossible` | library/ssl_ticket.c:233-432 | The assumptions about sealing and saving can be met, also that nothing opens or loads but what was sealed or saved |
| `Tickets.TicketContext.UpdateKeys` | library/ssl_ticket.c:106-133 | Rotates exactly when the active key is older than its lifetime |
| `Tickets.TicketContext.GenKey` | library/ssl_ticket.c:61-100 | A new key with the configured lifetime in that slot only |
| `Tickets.TicketContext.Rotate` | library/ssl_ticket.c:138-182 | A given key becomes the active one in the other slot, or nothing changes |
| `Tickets.TicketContext.SelectKey` | library/ssl_ticket.c:320-333 | The first key of that name, if any |
| `Tickets.TicketContext.Write` | library/ssl_ticket.c:233-315 | The ticket under the up-to-date key, and exactly when there is room for it; 0 bytes for a session that is too long |
| `Tickets.TicketContext.Parse` | library/ssl_ticket.c:338-432 | Equals the parse on values under the up-to-date keys, error codes included |
| `SessionCaches.Serve` | library/ssl_cache.c:73-367 | Over any run the answers are those of the chain on values; and with non-empty IDs of any length and positive times those of the map with expiry, which never has more than max entries |
| `CacheModel.ServedRefines` | library/ssl_cache.c:73-367 | The chain on values refines the map with expiry over any run, ever so long IDs included |
| `CacheModel.TooLongCostsEntry` | library/ssl_cache.c:129-297 | An ID that is too long is refused only after an entry was given up for it, which happens if and only if the cache is full or something has expired |
| `CacheModel.GetFindsLastStored` | library/ssl_cache.c:73-110 | A lookup gives the session stored last under the ID unless it was the victim, removed or timed out |
| `CacheModel.HitWasStored` | library/ssl_cache.c:73-110 | What is found was stored under that ID and is not expired |
| `CacheModel.SetRefines` | library/ssl_cache.c:129-243 | Storing loses at most one other ID: an expired one, or, when the cache is full and nothing is expired, one of the oldest |
| `CacheModel.FindIsLookup` | library/ssl_cache.c:36-70 | Searching the chain is a lookup of what is not expired |
| `CacheModel.DeleteRefines` | library/ssl_cache.c:320-367 | Unlinking removes that ID only |
| `CacheModel.OldestIsOldest` | library/ssl_cache.c:166-179 | The search finds an oldest entry if and only if all timestamps are positive or the last one is 0 |
| `CacheModel.ExpiredIsAge` | library/ssl_cache.c:47-52 | The conversion to int does no harm exactly for ages up to the timeout and those whose low 32 bits are between the timeout and 2^31 |
| `CacheModel.ExpiryIsNotForEver` | library/ssl_cache.c:47-52 | Up to 2^31 seconds an entry counts as expired if and only if it is older than the timeout and younger than 2^31 seconds |
| `CacheModel.ExpiredIff` | library/ssl_cache.c:47-52 | For any two times: expired if and only if the timeout is not 0 and the low 32 bits of the age are above it and below 2^31; with timeout 0 nothing ever expires |
| `CacheModel.SlotIsFirst` | library/ssl_cache.c:129-243 | The slot is the first entry of the ID; without one, the first that has expired; without one, a new one; and in a full cache the first of the oldest |
| `CacheModel.EmptyIdIsBlank` | library/ssl_cache.c:73-110 | A lookup of the empty ID fails with the error of a blank entry exactly when there is one that has not expired |
| `SessionCaches.SessionCache.FindEntry` | library/ssl_cache.c:36-70 | The first entry of the ID that is not expired |
| `SessionCaches.SessionCache.Get` | library/ssl_cache.c:73-110 | Its session; an error for none or for a blank entry |
| `SessionCaches.SessionCache.PickWritingSlot` | library/ssl_cache.c:129-243 | The slot by the three checks of the code; the chain stays linked, acyclic and otherwise unchanged |
| `SessionCaches.SessionCache.Set` | library/ssl_cache.c:245-318 | The entry of the slot is replaced, by a blank one if the ID is too long |
| `SessionCaches.SessionCache.Remove` | library/ssl_cache.c:320-367 | The entry is unlinked, all others stay in order |
| `CertificateFormat.RoundTrip` | library/ssl_tls13_generic.c:429-802 | Parsing what the writer produced gives the same certificates in order if and only if the context is empty, each has 128 to 65535 bytes and the list is under 65536 bytes |
| `CertificateFormat.AcceptedIsWellFormed` | library/ssl_tls13_generic.c:430-597 | Every accepted message is the format of a nested list of acceptable entries |
| `CertificateFormat.ParseExact` | library/ssl_tls13_generic.c:430-597 | And every such message gets this answer: the known certificates in order, or UNKNOWN_OID exactly when the last one is unknown and has no extensions |
| `CertificateErrors.ParseAnswer` | library/ssl_tls13_generic.c:430-597 | A message of proper sizes is answered with the code of the first certificate or extension that is refused, in the order of the message; else with the known certificates, or UNKNOWN_OID |
| `CertificateErrors.OffenceFirst` | library/ssl_tls13_generic.c:483-591 | Whatever follows in the list and behind it, well-formed or not |
| `CertificateErrors.CertificateFirst` | library/ssl_tls13_generic.c:483-545 | A certificate is judged before the extensions behind it are looked at |
| `CertificateErrors.CutExt` | library/ssl_tls13_generic.c:549-570 | An extension that is cut off is a decode error whatever its type |
| `CertificateErrors.DecodeErrorIff` | library/ssl_tls13_generic.c:430-597 | DECODE_ERROR is for messages that are not in the format only; each of those gets it unless something is refused before, so if nothing ever is, exactly those do |
| `CertificateFormat.OrderMatters` | library/ssl_tls13_generic.c:504-596 | The same two certificates are taken in one order and refused in the other |
| `CertificateFormat.ListRoundTrip` | library/ssl_tls13_generic.c:483-585 | Parsing a formatted list gives the list |
| `CertificateFormat.ListWellFormed` | library/ssl_tls13_generic.c:483-585 | What parses as a list is its format |
| `CertificateFormat.ExtsRoundTrip` | library/ssl_tls13_generic.c:544-581 | The same for extensions |
| `Certificates.Peer.ParseExtensions` | library/ssl_tls13_generic.c:535-585 | The inner loop equals the parse on values and collects the types received |
| `Certificates.Peer.ParseCertificate` | library/ssl_tls13_generic.c:430-597 | The loops over the buffer equal the parse on values, error codes included |
| `Certificates.WriteCertificateBody` | library/ssl_tls13_generic.c:740-802 | Writes the format, and succeeds exactly when it fits the buffer |

## Left out

- DTLS receiver: datagrams are given to the model as records, so sockets, timers, cookies, reconnects of a client on the same port, replay protection (see `AntiReplay`), renegotiation and what happens after the handshake are not in it. Resending because an old message arrived, or because nothing arrives, has no effect on what is received and is left out. A buffered future record is kept as a value, allocation never fails, and the number of slots is 4 as in the code.
- DtlsReceivers.DtlsReceiver.TakeRecord: does not model the replay check (that is `AntiReplay`), the limit of bad MACs, the error for a bad MAC while Finished is awaited, and the count of empty application data records; a record that does not authenticate just takes its datagram with it.
- DtlsReceivers.DtlsReceiver.GetNextRecord: does not model these either, nor the reconnect of a client on the same port.
- DtlsReceivers.Session: delivery in order assumes that wherever the receiver looks for a message in a record that it takes in there is a slice of the sender's messages; without that it can fail, see `DtlsPacking.ForgedIsDelivered`.
- RecordFormat: CBC ciphers have blocks of 16 bytes (AES, ARIA, Camellia). The state of ciphers without an explicit IV, the timing of the constant-flow code, zeroisation and failing PSA calls are not modelled. The NULL cipher stands for stream ciphers.
- DatagramBudget.ExpansionBounds: only for DTLS 1.2, the only DTLS version there is.
- Flight: the digest of sent messages, HelloRequest and the timer are not modelled; a transport error counts as a blocked write. COUNTER_WRAPPING, an internal error and a loop that is no longer watched are the end of a run.
- TlsReaders: record types other than handshake are told apart no further; alerts that are skipped are like records the caller skips. Whether an empty record is acceptable at all is given with the record. Variable buffer lengths are not modelled.
- MpsReaders: accumulator and fragment together are smaller than 2^64 bytes, as two buffers in one address space are. Null accumulators with a length are not modelled, nor is tracing.
- TicketService.Service: without manual rotation and with one clock in milliseconds, of which the key times are the seconds. Mutexes and failing PSA calls are left out.
- SessionCaches.Serve: the comparison with the map is for non-empty IDs and positive times; empty IDs are those of blank entries. The variant without a clock, mutexes and failing allocations are left out; saving a session never fails, and a session is its serialised form.
- Certificates: the X.509 parser and the check of extension types are parameters; of the chain only the order and the bytes of the certificates are modelled. Alerts and the freeing of an older chain are left out.
- The handshake state machines, TLS 1.3 key schedule, context serialisation, early data and the rest of X.509: not part of this model.
