# A model of invisibool's hard parts, with proofs

invisibool replaces registered secrets in a text by realistic fakes, puts them
back later, keeps the registrations in an encrypted vault, and talks to the X11
clipboard.  This project models five parts of it and proves what they promise:

- **The X11 INCR transfer** (`X11Transfer`, `X11Watchdog`, `X11Client`).  `X11Transfer` is a state
  machine over the atomic steps of one `read_text` call answered by the program's
  own selection owner, in which every X request may fail, with an inductive invariant
  over its phases; `X11Watchdog` adds the clock.  `X11Client` holds the event-thread handlers as methods of a class,
  each proved to carry out one step of the machine for its (window, atom) key.
  `X11Timestamp` is the one-slot timestamp rendezvous for any number of writers.
- **The session map** (`SessionMaps`, `SessionRuns`): two maps kept inverse under
  TTL, LRU eviction, collisions and imports, and guarantees over whole runs.
- **Scrub and restore** (`ExactMatcher`, `Engine`, `Restore`, `StatelessRestore`,
  `SessionRestore`, `RoundTrips`, `MixedRoundTrip`, `SingleRegistration`,
  `ScrubTwice`).  A scrubbed text is a list of gaps woven with one piece per match; the
  round trips are proved on that form, also for registrations of both kinds at once.
  `Examples` and `MixedExamples` show that their premises can be met.
- **Fakes and their recognition** (`Alphabets`, `Fpe`, `Mac`, `Reserved`,
  `Idempotence`, `FakeSources`, `ProfileOverlap`, `Detector`).
- **Persistence** (`VaultIo`, `Vault`, `VaultRuns`, `VaultProcesses`, `VaultUpdates`,
  `SessionFile`, `SessionCommands`, `SessionCalls`): disk, keychain and memory, with a
  write that may stop at any of its five steps and any number of processes; and any
  number of `scrub --session` calls followed by `restore --session`, through the file.

`Basics` and `Text` hold what several of them share.

## Assumptions

- FF1, HMAC-SHA-256, HKDF, SHA-256, the AEAD and the JSON codec are parameters
  with laws: FF1 is a length-preserving bijection for each tweak and radix, hashes
  have fixed lengths, opening undoes sealing and opens nothing else, parsing undoes
  serialising.
- Text is ASCII and registered values are not empty.  A formatless value is at most
  as long as the HKDF ceiling (section 2.3 of RFC 5869) allows; beyond it the
  program panics.
- Time, the order in which a hash map lists its entries, the outcome of each X
  request, disk step and keychain call are arbitrary inputs or actions.  A flush
  counts as part of the request before it.
- Processes that are alive at the same time have different process numbers.
- A crash between two write steps leaves the same files as a failure of the later
  step.
- `mac_tail_len` is the least K with radix^K >= 2^32; the program computes it with
  floating point.

## Where the code and its words differ

- A comment says that the plain read path deletes the property as it reads; it
  never does (`event_thread.rs:142-145` against `:193-224`); the model follows the code.
- An INCR answer looks at the owned text twice.  The snapshot is the second look,
  so the announced size may be that of another text, and after a clear in between
  nothing is ever sent: `SecondLookDecides` says exactly when the read ends, and
  `ClearStrandsRead` is a run that does not.
- The watchdog looks for idle receives and fails them under two locks: a chunk that is
  put away in between is too late (`PutAwayTooLate`).
- A failed X request in `fetch_server_time` returns without freeing the slot.  What
  callers get stays exclusive and in order (`Rendezvous`), but a taken slot has a
  caller that will free it exactly as long as no request has failed
  (`SlotHasHolderIff`): after `OneFailedRequest` no call ever gets a time.
- A call that times out leaves its notification on the way, and the next caller takes it
  for its own (`LateStampGoesToNext`); `OwnStampIff` says exactly who gets its own.
- `restore_with_session` is documented to rely on session fakes never lying in an
  FF1 profile.  `FakesFitProfilesIff` says, for every kind of fake and every FF1
  registration, exactly when some hashes and key make one that does;
  `FormatlessAlwaysFits`, `EmailAlwaysFits` and `CardAlwaysFits` are families that
  always do.
- The map's "last write wins" import may leave an entry that no pointer reaches
  (`DuplicateImportBreaksInverse`), whose expiry then costs a live pair its pointer
  (`DuplicateImportLosesPair`).  `ImportKeepsInverseIff` says exactly which imports
  leave the maps inverse, and `PairSurvivesIff` exactly which pairs of any map are safe.
- Recognising fakes is there so that scrubbing twice changes nothing, but an exact
  match takes precedence over it.  `ScrubTwiceIff` says exactly when a second scrub
  changes nothing.  With a value and its own fake registered in the same way, in whatever
  engine and under every FF1, scrubbing the value twice gives another text than scrubbing
  it once, unless the two are equal (`FakeIsScrubbedAgain`).
- The command line imports the stored pairs at the instant of the scrub, so they
  count as recent; `EveryPairIsHeld` therefore counts them against the capacity.
- `fetch_or_create` fetches and stores in two steps.  `StepKeepsIff` says exactly
  which store breaks the agreement between processes, file and keychain, and
  `RacingOpens` is a run in which a save ends up under a key that is gone.
- A save replaces the whole vault by what its process has in memory.  `EntrySurvivesIff`
  says exactly when an entry survives the saves of others, and `RegistrationIsLost` is a
  run in which one does not.

## Model

| member | source | states |
|---|---|---|
| `X11Transfer.InvStep` | crates/invisibool-clipboard/src/x11/event_thread.rs:119-545 | each step of a transfer (request, second look, chunk served, taken and put away, notify, write, clear, sweep, any X request lost) keeps the seven-phase protocol invariant |
| `X11Transfer.InvRun` | crates/invisibool-clipboard/src/x11/event_thread.rs:119-545 | the invariant holds after every legal run |
| `X11Transfer.Conservation` | crates/invisibool-clipboard/src/x11/event_thread.rs:119-545 | while receiving, bytes put away + in hand + in the property + lost to a failed request + unsent are the owner's snapshot, in order, in every interleaving |
| `X11Transfer.ReadIsNeverCut` | crates/invisibool-clipboard/src/x11/event_thread.rs:119-344 | a read that ends in text has the whole registered snapshot, taken in ceil(n/65536) non-empty chunks and one empty one, or in one piece of at most 256 KiB; one that ends without text was refused |
| `X11Transfer.StepStaysWithinLimit` | crates/invisibool-clipboard/src/x11/event_thread.rs:119-344 | whatever an owner puts into the property: no step takes the buffer or a delivered text over 8 MiB, and what is delivered is text |
| `X11Transfer.AnswerFailsIff` | crates/invisibool-clipboard/src/x11/event_thread.rs:119-225 | an answer fails the read if and only if its announced or actual size is over 8 MiB or it is no text; a refusal gives no text; a failed request fails it |
| `X11Transfer.ChunkFailsIff` | crates/invisibool-clipboard/src/x11/event_thread.rs:312-344 | a chunk fails the read if and only if the buffer would exceed 8 MiB, the empty one if and only if the buffer is no text |
| `X11Transfer.AnswerBySize` | crates/invisibool-clipboard/src/x11/event_thread.rs:403-443 | a text of up to 256 KiB is served whole, a longer one announced by its size |
| `X11Transfer.DoneIsFinal` | crates/invisibool-clipboard/src/x11/pending.rs:84-96 | the result of a read is written once and no later event changes it |
| `X11Transfer.NextChunk` | crates/invisibool-clipboard/src/x11/event_thread.rs:476-503 | a chunk has at most 64 KiB, is empty exactly when the send is dropped, and chunk + rest is what was unsent |
| `X11Transfer.SureStep` | crates/invisibool-clipboard/src/x11/event_thread.rs:119-513 | while no request fails and nothing is swept, every step and every owner write or clear leaves the read waiting for its answer, registered with nothing lost, stranded by a clear, or done as it should be |
| `X11Transfer.SureIsNotStuck` | crates/invisibool-clipboard/src/x11/event_thread.rs:239-275 | such a read that is neither done nor stranded always has a protocol step to take |
| `X11Transfer.BudgetStep` | crates/invisibool-clipboard/src/x11/event_thread.rs:119-513 | every protocol step uses up some of a budget that is set by the text, so no run goes on forever |
| `X11Transfer.ReadEnds` | crates/invisibool-clipboard/src/x11/event_thread.rs:119-545 | from the request on, with no sweep and no failed request: at most 392 protocol steps, and when none is left the read is done if and only if it was refused or a text was registered (in one piece or at the second look), with that text |
| `X11Transfer.SecondLookDecides` | crates/invisibool-clipboard/src/x11/event_thread.rs:445-470 | an INCR answer looks at the owned text twice; when no step is left the read is done if and only if there was a text at the second look, and then delivers that text |
| `X11Transfer.ClearStrandsRead` | crates/invisibool-clipboard/src/x11/event_thread.rs:403-470 | a read of 256 KiB and one byte, cleared between the two looks, ends stranded with no step left |
| `X11Watchdog.WatchdogEndsIdle` | crates/invisibool-clipboard/src/x11/event_thread.rs:515-537 | over every run with a clock: a receive ends in failure when the watchdog comes to fail it if and only if at its look before one was registered that had been neither begun nor served a chunk in the 500 ms up to then; otherwise the transfer is left alone |
| `X11Watchdog.SweepDropsOld` | crates/invisibool-clipboard/src/x11/event_thread.rs:539-545 | a send is dropped if and only if it was registered 10 s before or earlier |
| `X11Watchdog.StampsHold` | crates/invisibool-clipboard/src/x11/event_thread.rs:174-180 | in every run the stamps are the times of the last beginning or chunk put away, and of the last registration |
| `X11Watchdog.PutAwayTooLate` | crates/invisibool-clipboard/src/x11/event_thread.rs:515-537 | a chunk put away between the look and the failing does not save the read |
| `X11Watchdog.TimedKeepsInv` | crates/invisibool-clipboard/src/x11/event_thread.rs:119-545 | with the clock taken away such a run keeps the invariant of the transfer |
| `X11Client.PendingRead.Complete` | crates/invisibool-clipboard/src/x11/pending.rs:84-89 | the read state becomes the result |
| `X11Client.PendingRead.SetIncrInProgress` | crates/invisibool-clipboard/src/x11/pending.rs:91-96 | the read state becomes INCR in progress |
| `X11Client.X11Inner.PeekProperty` | crates/invisibool-clipboard/src/x11/event_thread.rs:568-589 | a non-deleting property read: the window of the value in four-byte units, the bytes after it, the INCR type and hint |
| `X11Client.X11Inner.ReadPlain` | crates/invisibool-clipboard/src/x11/event_thread.rs:193-224 | the read loop by offset returns the whole value, or nothing if it is over 8 MiB or a further request fails |
| `X11Client.X11Inner.HandleSelectionNotify` | crates/invisibool-clipboard/src/x11/event_thread.rs:119-225 | carries out exactly the notify step of the transfer under its key, whichever of its requests fail, all other keys unchanged; a receive that begins is stamped with the time |
| `X11Client.X11Inner.TakeIncrChunk` | crates/invisibool-clipboard/src/x11/event_thread.rs:277-310 | carries out exactly the new-value step: gate, read with deletion, failure; the receive's stamp stays |
| `X11Client.X11Inner.PutAwayIncrChunk` | crates/invisibool-clipboard/src/x11/event_thread.rs:312-344 | carries out exactly the put-away step: receive removed by the watchdog meanwhile, end of transfer, cap, accumulation; stamps the receive with the time if a chunk was put away, and only then |
| `X11Client.X11Inner.BeginTextRequest` | crates/invisibool-clipboard/src/x11/event_thread.rs:403-443 | carries out the first half of answering: refusal, single shot, or watching and INCR marker, whichever requests fail |
| `X11Client.X11Inner.FinishTextRequest` | crates/invisibool-clipboard/src/x11/event_thread.rs:445-470 | carries out the second half: second look, registration, notify; a send that is registered is stamped with the time |
| `X11Client.X11Inner.TakeChunk` | crates/invisibool-clipboard/src/x11/event_thread.rs:477-503 | cuts the next chunk off a send, or drops the send; its stamp stays |
| `X11Client.X11Inner.ServeNextIncrChunk` | crates/invisibool-clipboard/src/x11/event_thread.rs:476-513 | carries out exactly the deleted step of the transfer |
| `X11Client.X11Inner.FindIdleReceives` | crates/invisibool-clipboard/src/x11/event_thread.rs:515-530 | the watchdog's look: exactly the receives whose last chunk, or registration, is more than 500 ms old |
| `X11Client.X11Inner.FailReceives` | crates/invisibool-clipboard/src/x11/event_thread.rs:530-537 | under the lock again: fails and removes those it found that are still, or again, registered, each with its own read |
| `X11Client.X11Inner.SweepIncrSendTimeouts` | crates/invisibool-clipboard/src/x11/event_thread.rs:539-545 | removes exactly the sends registered 10 s ago or earlier |
| `X11Client.X11Inner.BeginRead` | crates/invisibool-clipboard/src/x11/mod.rs:301-335 | refuses a second read on the same destination; otherwise registers the read and asks for the selection, and takes the entry back if that fails; with no leftovers of an earlier transfer, the transfer machine is then at its start |
| `X11Client.X11Inner.WriteText` | crates/invisibool-clipboard/src/x11/mod.rs:376-402 | refuses text over 8 MiB and gives up without a server time, leaving the owned text; otherwise owns the text with a new token, also when claiming the selection then fails |
| `X11Client.X11Inner.ClearText` | crates/invisibool-clipboard/src/x11/mod.rs:418-435 | drops the owned text first, and counts the change only if the selection could be released |
| `X11Timestamp.PendingTimestamp.Claim` | crates/invisibool-clipboard/src/x11/mod.rs:233-247 | takes the slot only if it is free |
| `X11Timestamp.PendingTimestamp.Fill` | crates/invisibool-clipboard/src/x11/event_thread.rs:244-255 | fills the slot only if it is claimed and empty |
| `X11Timestamp.PendingTimestamp.Collect` | crates/invisibool-clipboard/src/x11/mod.rs:268-295 | leaves with the time, leaves empty-handed 500 ms after it began to wait, or waits |
| `X11Timestamp.InvStep` | crates/invisibool-clipboard/src/x11/mod.rs:230-297 | every step of callers, server and event thread, failed requests included, keeps exclusiveness and the order of all stamps returned, waiting and on their way |
| `X11Timestamp.InvRun` | crates/invisibool-clipboard/src/x11/mod.rs:230-297 | so does every run |
| `X11Timestamp.Rendezvous` | crates/invisibool-clipboard/src/x11/mod.rs:230-297 | for any number of callers and any failures: at most one between claim and release, each delivered time returned at most once and only to the caller that held the slot, returned times never backwards |
| `X11Timestamp.OwnStampIff` | crates/invisibool-clipboard/src/x11/mod.rs:230-297 | in every run a call that returns gets the stamp of its own request if and only if no stamp was on its way when it claimed the slot |
| `X11Timestamp.LateStampGoesToNext` | crates/invisibool-clipboard/src/x11/mod.rs:268-295 | a run in which a call times out and the next one returns its stamp |
| `X11Timestamp.FailedRequestWedges` | crates/invisibool-clipboard/src/x11/mod.rs:249-266 | one failed request leaves the slot taken with nobody to free it, and in every later run nobody claims or returns |
| `X11Timestamp.SlotHasHolderIff` | crates/invisibool-clipboard/src/x11/mod.rs:230-297 | after a run a taken slot has a caller that will free it if and only if no request in the run failed |
| `X11Timestamp.OneFailedRequest` | crates/invisibool-clipboard/src/x11/mod.rs:249-266 | one claim and one failed request from the start leave the slot taken in every later run |
| `SessionMaps.SessionMap.constructor` | crates/invisibool-engine/src/tokenizer/session.rs:86-93 | an empty map with its bounds |
| `SessionMaps.SessionMap.GetOrInsert` | crates/invisibool-engine/src/tokenizer/session.rs:100-133 | prune, then touch and return the held fake, or make room and insert |
| `SessionMaps.SessionMap.Restore` | crates/invisibool-engine/src/tokenizer/session.rs:142-147 | prune, then answer and touch |
| `SessionMaps.Restored` | crates/invisibool-engine/src/tokenizer/session.rs:142-147 | answers exactly when the entry is there and not idle beyond the TTL |
| `SessionMaps.SessionMap.Import` | crates/invisibool-engine/src/tokenizer/session.rs:161-184 | inserts the pairs in order, last write wins |
| `SessionMaps.SessionMap.Clear` | crates/invisibool-engine/src/tokenizer/session.rs:200-205 | empties both maps |
| `SessionMaps.SessionMap.PruneExpired` | crates/invisibool-engine/src/tokenizer/session.rs:207-222 | removes exactly the expired entries and their pointers, in whatever order they are met |
| `SessionMaps.SessionMap.EvictLru` | crates/invisibool-engine/src/tokenizer/session.rs:224-238 | removes one least recently touched entry and its pointer; which of several is open |
| `SessionMaps.SessionMap.WipeByRealKey` | crates/invisibool-engine/src/tokenizer/session.rs:244-250 | removes one pointer |
| `SessionMaps.InsertKeeps` | crates/invisibool-engine/src/tokenizer/session.rs:118-133 | insertion keeps every pointer on a live entry of its value, and keeps the maps inverse for a new value |
| `SessionMaps.InsertKeepsInverseIff` | crates/invisibool-engine/src/tokenizer/session.rs:173-182 | between inverse maps, one imported pair keeps them inverse if and only if its value is new or already has this fake |
| `SessionMaps.ImportKeeps` | crates/invisibool-engine/src/tokenizer/session.rs:161-184 | so does a whole import |
| `SessionMaps.ImportKeepsInverseIff` | crates/invisibool-engine/src/tokenizer/session.rs:161-184 | between inverse maps an import leaves them inverse if and only if, for every fake there then is, no pair after the fake's last one has its value and no other fake had that value just before; the condition reads the map before the import and the pairs |
| `SessionMaps.EveryPairKeepsInverseIff` | crates/invisibool-engine/src/tokenizer/session.rs:161-184 | they are inverse after every single pair if and only if each value, when its turn comes, is new or already has this fake |
| `SessionMaps.AgreeingSettles` | crates/invisibool-engine/src/tokenizer/session.rs:161-184 | the second condition implies the first |
| `SessionMaps.DetourSettles` | crates/invisibool-engine/src/tokenizer/session.rs:161-184 | but not the other way round: two fakes that share a value on the way and get others in the end |
| `SessionMaps.DistinctNewValuesAgree` | crates/invisibool-engine/src/tokenizer/session.rs:161-184 | distinct new values meet both |
| `SessionRuns.MapsStayConsistent` | crates/invisibool-engine/src/tokenizer/session.rs:100-250 | in every run each pointer lands on a live entry for its value; the maps are exact inverses throughout if and only if every import meets the condition of ImportKeepsInverseIff |
| `SessionRuns.DuplicateImportBreaksInverse` | crates/invisibool-engine/src/tokenizer/session.rs:161-184 | an import that does not: one value twice, under any two fakes, orphans an entry |
| `SessionRuns.DuplicateImportLosesPair` | crates/invisibool-engine/src/tokenizer/session.rs:161-222 | what it costs: when the orphan expires the live pair of the same value loses its pointer, and the value, used again within the TTL with no other value in between, gets another fake |
| `SessionRuns.SizeIsBounded` | crates/invisibool-engine/src/tokenizer/session.rs:100-133 | without imports the size never exceeds max(1, max_entries) |
| `SessionRuns.PairSurvives` | crates/invisibool-engine/src/tokenizer/session.rs:100-147 | a pair whose value no orphaned entry carries keeps its fake over any stretch that never leaves it idle past the TTL, uses values since its last use that, with the map's orphans, are fewer than max_entries, and makes no collision, clear or import |
| `SessionRuns.PairSurvivesIff` | crates/invisibool-engine/src/tokenizer/session.rs:100-238 | in any map with sound pointers, also one that imports left not inverse, and for any record that fits it: a pair survives all such stretches if and only if no other entry carries its value, or no operation can spare it (no time left, or no room beside the orphans) |
| `SessionRuns.SomeRecordFits` | crates/invisibool-engine/src/tokenizer/session.rs:100-238 | every pair of every such map has a record that fits |
| `SessionRuns.DuplicateImportIsUnsafe` | crates/invisibool-engine/src/tokenizer/session.rs:161-222 | so straight after importing one value twice its pair is not safe, but for a TTL of 0 or a map of at most one entry |
| `SessionRuns.UsedPairSurvives` | crates/invisibool-engine/src/tokenizer/session.rs:100-238 | the same over whole runs from an empty map, for every use in the run, whatever was imported before it, provided that left no orphan of the value (none exists in inverse maps, see MapsStayConsistent; DuplicateImportLosesPair shows the loss) |
| `SessionRuns.InverseIffNoOrphans` | crates/invisibool-engine/src/tokenizer/session.rs:100-250 | the maps are inverse if and only if every pointer lands on its value's entry and no entry is an orphan |
| `SessionRuns.OrphansShrink` | crates/invisibool-engine/src/tokenizer/session.rs:207-238 | expiry and eviction never leave more orphans than there were, though they can make a live entry one |
| `SessionRuns.InsertMakesNoOrphan` | crates/invisibool-engine/src/tokenizer/session.rs:118-133 | nor does a new value, also when its fake displaces another entry |
| `SessionRuns.EvictionSpares` | crates/invisibool-engine/src/tokenizer/session.rs:224-238 | a counting argument: while the values used since and the orphans are few enough, the least recently touched entry is not the pair |
| `SessionRuns.StampsAreUses` | crates/invisibool-engine/src/tokenizer/session.rs:100-184 | every time stamp in the map is that of an operation of the run on that entry |
| `SessionRuns.RestoreIsRecent` | crates/invisibool-engine/src/tokenizer/session.rs:142-147 | a restore that answers does so for an entry used within the last TTL |
| `SessionRestore.EveryPairIsHeld` | crates/invisibool-engine/src/engine.rs:97-116 | within one scrub, if the values used fit the map with those already stamped at or after its time and the orphans that have not expired, every fake handed over restores to its value at the end and throughout the TTL; no orphans are added, so inverse maps stay inverse |
| `SessionRestore.NonInverseStoreLosesPair` | crates/invisibool-engine/src/tokenizer/session.rs:100-238 | the orphans must be counted: after importing one value twice, a scrub whose values alone fit the map can push out a pair it has just handed over |
| `SessionRestore.PutBackOne` | crates/invisibool-engine/src/engine.rs:516-523 | one replacement puts one value back everywhere and counts its pieces |
| `SessionRestore.PutBackAll` | crates/invisibool-engine/src/engine.rs:515-524 | what putting back reaches depends only on which fakes were visited, not on their order |
| `SessionRestore.PutBackRebuilds` | crates/invisibool-engine/src/engine.rs:495-533 | visiting the stored fakes that occur, in any order, rebuilds the text and counts every piece |
| `Alphabets.Validate` | crates/invisibool-engine/src/tokenizer/alphabet.rs:143-164 | accepts exactly the ASCII, whitespace-free, repetition-free strings of 2 to 65535 symbols; which error is reported when |
| `Alphabets.IndexSymbolInverse` | crates/invisibool-engine/src/tokenizer/alphabet.rs:93-109 | numbering symbols and naming numbers are inverse on every valid alphabet |
| `Alphabets.Base62InOrder` | crates/invisibool-engine/src/tokenizer/alphabet.rs:38-39 | base 62 is the digits, then the capitals, then the small letters |
| `Alphabets.RadixAtMost122` | crates/invisibool-engine/src/tokenizer/alphabet.rs:143-164 | no valid alphabet has more than 122 symbols |
| `Alphabets.TailModulusFits` | crates/invisibool-engine/src/tokenizer/alphabet.rs:81-84 | for every radix in [2, 65535], 2^32 <= radix^K < 2^48, and K is least |
| `Alphabets.Base62TailLen` | crates/invisibool-engine/src/tokenizer/alphabet.rs:38-40 | base 62 has a tail of six symbols |
| `Fpe.CheckEligibility` | crates/invisibool-engine/src/tokenizer/fpe.rs:279-305 | accepts exactly the values with the prefix, an ASCII body over the alphabet without white space, and radix^len >= 10^6: the capped 64-bit power decides this exactly |
| `Fpe.ErrorIsFirst` | crates/invisibool-engine/src/tokenizer/fpe.rs:279-305 | the error reported is that of the first demand not met: prefix, ASCII, no white space, alphabet, length, domain of a million |
| `Fpe.NumeralsRoundTrip` | crates/invisibool-engine/src/tokenizer/fpe.rs:362-378 | body-to-numerals and numerals-to-body are inverse over valid alphabets |
| `Fpe.ScrubValue` | crates/invisibool-engine/src/tokenizer/fpe.rs:207-226 | a fake keeps prefix, length and alphabet |
| `Fpe.DecryptsThenScrubs` | crates/invisibool-engine/src/tokenizer/fpe.rs:232-272 | a candidate accepted under a registration is that registration's fake |
| `Fpe.ScrubThenDecrypts` | crates/invisibool-engine/src/tokenizer/fpe.rs:207-272 | a registration's fake is accepted under it |
| `Fpe.TrialDecryptionIsLookUp` | crates/invisibool-engine/src/tokenizer/fpe.rs:232-272 | trial decryption is the lookup table of scrub outputs: the value of the first registration whose fake is the candidate |
| `Fpe.RestoresFirst` | crates/invisibool-engine/src/tokenizer/fpe.rs:232-272 | a candidate is restored to the value of the first registration whose fake it is, and to none exactly if it is no fake |
| `Mac.ReadPrefix` | crates/invisibool-engine/src/tokenizer/mac.rs:173-176 | the shifting loop reads the first eight octets as a big-endian number |
| `Mac.LowDigits` | crates/invisibool-engine/src/tokenizer/mac.rs:177-188 | the digit loop gives the K-digit big-endian form |
| `Mac.EncodeToAlphabet` | crates/invisibool-engine/src/tokenizer/mac.rs:161-189 | the tail is that form of the hash prefix mod radix^K, in symbols |
| `Mac.DigitsDenote` | crates/invisibool-engine/src/tokenizer/mac.rs:161-189 | the K digits denote the number they were made from |
| `Mac.TailsAgreeModulo` | crates/invisibool-engine/src/tokenizer/mac.rs:161-189 | two hashes share a tail if and only if they agree mod radix^K |
| `Mac.MakeMacFake` | crates/invisibool-engine/src/tokenizer/mac.rs:127-159 | nothing exactly for values no longer than the tail; otherwise a fake of the value's length over the alphabet |
| `Mac.MacFakeVerifies` | crates/invisibool-engine/src/tokenizer/mac.rs:67-137 | every MAC fake verifies under its key |
| `Reserved.LuhnCheckDigit` | crates/invisibool-engine/src/tokenizer/reserved.rs:105-126 | the loop computes the check digit of the Luhn sum |
| `Reserved.LuhnValid` | crates/invisibool-engine/src/tokenizer/reserved.rs:129-147 | the loop accepts exactly digit strings whose Luhn sum is a multiple of ten |
| `Reserved.LuhnSumSpelledOut` | crates/invisibool-engine/src/tokenizer/reserved.rs:105-150 | the sum is that of ISO/IEC 7812-1: from the right every second digit doubled, less nine where that exceeds nine |
| `Reserved.CheckDigitIsUnique` | crates/invisibool-engine/src/tokenizer/reserved.rs:105-147 | exactly one appended digit passes, and it is the check digit (Annex B of ISO/IEC 7812-1) |
| `Reserved.SingleErrorIsCaught` | crates/invisibool-engine/src/tokenizer/reserved.rs:129-147 | any single changed digit is rejected |
| `Reserved.SwapIsCaught` | crates/invisibool-engine/src/tokenizer/reserved.rs:129-147 | a swap of different neighbours passes if and only if they are 0 and 9 |
| `Reserved.OverlayDigits` | crates/invisibool-engine/src/tokenizer/reserved.rs:85-99 | the overlay loop computes the overlay |
| `Reserved.OverlayKeepsLayout` | crates/invisibool-engine/src/tokenizer/reserved.rs:85-99 | separators stay in place, digits are replaced in order |
| `Reserved.CardFakeIsValid` | crates/invisibool-engine/src/tokenizer/reserved.rs:67-100 | a card fake has the original's layout and a Luhn-valid 16-digit 4242 number |
| `Reserved.FakeEmail` | crates/invisibool-engine/src/tokenizer/reserved.rs:34-45 | ten lower-case letters at example.com |
| `Reserved.FakeIpv4` | crates/invisibool-engine/src/tokenizer/reserved.rs:49-52 | an address in 192.0.2.0/24: the last octet is a decimal number below 256 without leading zeros |
| `Reserved.FakePhone` | crates/invisibool-engine/src/tokenizer/reserved.rs:56-60 | a number in 555-01XX |
| `Idempotence.NoOpExactly` | crates/invisibool-engine/src/idempotence.rs:98-136 | a text is left alone if and only if it is not registered itself and is the fake of an active or retired FF1 registration, in a reserved range, or carries a verifying tail |
| `Idempotence.ReasonIsFirst` | crates/invisibool-engine/src/idempotence.rs:98-136 | the reason given is that of the first check that recognises the text: active registration, retired one, reserved range, tag |
| `Idempotence.ReservedIff` | crates/invisibool-engine/src/idempotence.rs:143-190 | a text is in a reserved range if and only if it ends as an example mail address, begins as an example network, is an example telephone number or has sixteen digits beginning 4242 |
| `Idempotence.Ff1FakesAreNoOps` | crates/invisibool-engine/src/idempotence.rs:98-123 | every fake of an active or retired FF1 registration is a no-op if and only if it is not itself a registered value |
| `Idempotence.SessionFakesAreNoOps` | crates/invisibool-engine/src/idempotence.rs:125-189 | so is every e-mail, IPv4, phone, card and MAC fake |
| `ProfileOverlap.RangeIsExact` | crates/invisibool-engine/src/tokenizer/reserved.rs:34-100 | the exact range of every session generator: a string is the fake of a registration under some hashes and key if and only if it has the shape, the layout and Luhn-valid 4242 number, or the length over base 62 |
| `ProfileOverlap.WindowFills` | crates/invisibool-engine/src/engine.rs:427-448 | a window in which a shape allows something at each position that the profile takes is filled by a string of that shape with the profile |
| `ProfileOverlap.ResiduesAreExact` | crates/invisibool-engine/src/tokenizer/reserved.rs:67-100 | the last digits of Luhn sums over sets of digits, computed set by set, are exactly those that some choice of digits has |
| `ProfileOverlap.CardDecides` | crates/invisibool-engine/src/tokenizer/reserved.rs:67-100 | some card fake has the profile somewhere if and only if there is a window that takes the separators and leaves sixteen sets of digits among whose residues is zero |
| `ProfileOverlap.CardWindowFills` | crates/invisibool-engine/src/tokenizer/reserved.rs:67-100 | a window that leaves out one digit that varies is filled: that digit makes the number Luhn-valid |
| `ProfileOverlap.LeftoverDecides` | crates/invisibool-engine/src/tokenizer/reserved.rs:67-100 | so in that case the residues need not be looked at |
| `ProfileOverlap.FakesFitProfilesIff` | crates/invisibool-engine/src/engine.rs:490-494 | some fake of a session registration, of any kind, has a span in the profile of an FF1 registration, with any prefix and alphabet, if and only if a test on the two registrations says so |
| `ProfileOverlap.FormatlessAlwaysFits` | crates/invisibool-engine/src/engine.rs:490-494 | without a prefix and with base 62 in the alphabet every formatless fake does, whatever the hashes, if and only if the FF1 value is not longer |
| `ProfileOverlap.EmailAlwaysFits` | crates/invisibool-engine/src/engine.rs:490-494 | every e-mail fake lies in the profile of a prefix-free registration over lower-case letters of at most ten characters |
| `ProfileOverlap.CardAlwaysFits` | crates/invisibool-engine/src/engine.rs:490-494 | without a prefix and with all ten digits in the alphabet a card fake, whatever the hashes, has the profile at exactly those places where the alphabet takes the value's separators |
| `Detector.KeepBest` | crates/invisibool-engine/src/detection/mod.rs:106-111 | the greedy walk keeps disjoint candidates, and everything dropped overlaps a kept one ranked at least as high |
| `Detector.Scan` | crates/invisibool-engine/src/detection/mod.rs:92-116 | disjoint, in source order, drawn from the candidates; every rejected candidate overlaps a kept one ranked at least as high by length, then confidence, then start |
| `Detector.KeptIff` | crates/invisibool-engine/src/detection/mod.rs:92-116 | a candidate is kept if and only if no other one that is kept overlaps it and is longer, or as long and exact where it is a pattern's, or as long, of the same kind, and no further right |
| `Detector.LongestIsKept` | crates/invisibool-engine/src/detection/mod.rs:92-116 | a candidate that beats everything it overlaps, being strictly longer for instance, is kept |
| `ExactMatcher.Scan` | crates/invisibool-engine/src/detection/exact.rs:39-76 | leftmost-longest non-overlapping matches |
| `ExactMatcher.InputIsWoven` | crates/invisibool-engine/src/detection/exact.rs:62-76 | the input is its gaps woven with the values that were hit |
| `ExactMatcher.GapsHoldNoValue` | crates/invisibool-engine/src/engine.rs:283-413 | no copied stretch contains a complete registered value |
| `Engine.NewEngine` | crates/invisibool-engine/src/engine.rs:213-251 | the two lists hold exactly the registrations of their kind, in order, and each registration is found again by its position |
| `Engine.NewEngineIsWellFormed` | crates/invisibool-engine/src/engine.rs:213-251 | an engine so built meets the premises of every round trip if and only if its values are non-empty, its alphabets valid and its formatless values within the HKDF ceiling; it is all FF1 or all session-mapped exactly if its registrations are |
| `Engine.HitIsReplaced` | crates/invisibool-engine/src/engine.rs:283-413 | an exact hit is never copied: it is counted and becomes its fake or the placeholder, with exactly the notice, name and kind that this calls for |
| `FakeSources.SameFakeIff` | crates/invisibool-engine/src/engine.rs:340-363 | two registrations of one kind get the same fake, under any hashes and keys, if and only if the digests of their own values agree in what the kind shows: ten octets modulo 26, one octet, one octet modulo 100, eleven octets modulo 10 and the layout, or the expanded body modulo 62 and its tag |
| `FakeSources.FakeIsMadeIff` | crates/invisibool-engine/src/engine.rs:340-400 | a fake is made of card numbers with exactly sixteen digits, of formatless values longer than six, and of every other value |
| `FakeSources.VerifyIff` | crates/invisibool-engine/src/tokenizer/mac.rs:52-96 | a candidate carries the key's tag if and only if its last K symbols write, in the alphabet, the first eight octets of the HMAC of what stands before them, modulo radix^K |
| `FakeSources.FakeIsFf1` | crates/invisibool-engine/src/tokenizer/fpe.rs:207-226 | an FF1 fake is the prefix and the FF1 encryption, under the registration's own tweak and radix, of the numerals of the rest |
| `FakeSources.NoFf1Fake` | crates/invisibool-engine/src/tokenizer/fpe.rs:207-226 | there is none exactly if the registration is not eligible or FF1 refuses its radix and length |
| `Engine.StoreUse` | crates/invisibool-engine/src/engine.rs:97-116 | a session pair is handed to the map, if there is one |
| `Engine.OneHit` | crates/invisibool-engine/src/engine.rs:297-406 | one iteration of the scrub loop takes text, count, notices and session map one planned hit further |
| `Engine.NoticesInOrder` | crates/invisibool-engine/src/engine.rs:297-406 | each hit's notices stand behind those of the hits before it |
| `Engine.UsesInOrder` | crates/invisibool-engine/src/engine.rs:297-406 | the pair of each hit with a session fake is handed over behind those before it, whatever became of the other hits |
| `Engine.ScrubImpl` | crates/invisibool-engine/src/engine.rs:283-413 | the output is the gaps woven with the planned pieces of the leftmost-longest matches, the count is their number, notices come in source order, the session is handed every session pair |
| `Restore.SearchProfile` | crates/invisibool-engine/src/engine.rs:427-448 | the search loop ends and collects exactly the spans that match the registration's prefix, length and alphabet, overlapping ones included |
| `Restore.CollectCandidates` | crates/invisibool-engine/src/engine.rs:424-448 | the spans that match some registration |
| `Restore.SortDedup` | crates/invisibool-engine/src/engine.rs:450-452 | the same spans, strictly sorted |
| `Restore.WalkCandidates` | crates/invisibool-engine/src/engine.rs:454-474 | the loop computes the left-to-right walk and its count |
| `Restore.WalkIsLocal` | crates/invisibool-engine/src/engine.rs:454-474 | the output has the input's length and differs only inside accepted spans |
| `Restore.NoneAcceptedIsIdentity` | crates/invisibool-engine/src/engine.rs:454-474 | if no span is accepted the output is the input |
| `Restore.WalkRestoresExactly` | crates/invisibool-engine/src/engine.rs:454-474 | the walk exchanges every chosen span for what trial decryption makes of it, if anything, leaves everything else, and counts the chosen spans that decrypt; a candidate is chosen if and only if no chosen one before it overlaps it |
| `Restore.ChoiceIsUnique` | crates/invisibool-engine/src/engine.rs:454-474 | there is only one such choice |
| `Restore.OnlyOneRestore` | crates/invisibool-engine/src/engine.rs:420-479 | and so only one output and one count |
| `Restore.RestoreText` | crates/invisibool-engine/src/engine.rs:420-479 | stateless restore is exactly that, for the candidate spans of the text |
| `Restore.CollectFakes` | crates/invisibool-engine/src/engine.rs:503-512 | lists exactly the stored fakes that occur, in an arbitrary order |
| `Restore.PutBackExactly` | crates/invisibool-engine/src/engine.rs:514-524 | going through the listed fakes in their order, each whose entry is live is exchanged for its value wherever it then occurs, the others are passed over, and the count adds up the occurrences |
| `Restore.PutBackStamps` | crates/invisibool-engine/src/engine.rs:514-524 | afterwards exactly the live entries are left, those visited with a new stamp |
| `Text.ReplaceIsLeftmost` | crates/invisibool-engine/src/engine.rs:516-523 | replacing exchanges exactly the occurrences met from the left without overlap, and counting counts them |
| `Restore.RestoreWithSession` | crates/invisibool-engine/src/engine.rs:495-533 | puts the listed fakes back, then restores statelessly; counts add up |
| `StatelessRestore.RestoreRebuilds` | crates/invisibool-engine/src/engine.rs:420-479 | if the candidates are the written pieces and each is accepted, the walk puts every value back |
| `RoundTrips.FakeDecrypts` | crates/invisibool-engine/src/tokenizer/fpe.rs:232-272 | with distinct fakes, every fake is restored to its own value |
| `RoundTrips.StatelessRoundTrip` | crates/invisibool-engine/src/engine.rs:283-479 | restore undoes scrub and the counts agree, if every profile-matching span of the scrubbed text is one scrub wrote |
| `RoundTrips.SessionRoundTrip` | crates/invisibool-engine/src/engine.rs:283-533 | session restore undoes session scrub for every visiting order, under the stated premises |
| `RoundTrips.ScrubThenRestoreWithSession` | crates/invisibool-engine/src/engine.rs:274-533 | the two calls one after the other return the input, and the counts agree |
| `MixedRoundTrip.MixedRebuilds` | crates/invisibool-engine/src/engine.rs:495-533 | with session and FF1 fakes in one text, the session pass in any order and then the FF1 pass put every value back and count every piece |
| `MixedRoundTrip.MixedRoundTrips` | crates/invisibool-engine/src/engine.rs:283-533 | the round trip for registrations of both kinds, for every store that answers for what scrub wrote and every visiting order |
| `MixedRoundTrip.MixedCoversSession` | crates/invisibool-engine/src/engine.rs:283-533 | for session registrations alone its premises are those of the session round trip |
| `MixedRoundTrip.ScrubThenRestoreMixed` | crates/invisibool-engine/src/engine.rs:274-533 | the two calls one after the other return the input, and the counts agree |
| `ScrubTwice.ScrubFixesExactly` | crates/invisibool-engine/src/engine.rs:283-413 | scrub leaves a text alone if and only if each value found in it is its own replacement, provided that the first one found that is not neither begins with its replacement nor is a beginning of it |
| `ScrubTwice.SameLengthsMove` | crates/invisibool-engine/src/engine.rs:283-413 | which holds by itself for replacements as long as their values, as FF1 fakes are |
| `ScrubTwice.ScrubFixesIff` | crates/invisibool-engine/src/engine.rs:283-413 | if the first value found is so replaced, scrub leaves the text alone if and only if it holds no registered value |
| `ScrubTwice.ValueTouchesPiece` | crates/invisibool-engine/src/engine.rs:283-413 | a registered value that occurs in a scrubbed text touches something that scrub wrote |
| `ScrubTwice.ScrubTwiceIff` | crates/invisibool-engine/src/engine.rs:283-413 | under the provisos of ScrubFixesExactly and ScrubFixesIff for the second scrub: it changes nothing if and only if each value it finds is its own replacement; if and only if what the first scrub wrote, with what stands around it, spells no registered value |
| `ScrubTwice.ScrubAgain` | crates/invisibool-engine/src/engine.rs:261-413 | the same for the two calls one after the other, for every engine, with or without a session |
| `ScrubTwice.RegisteredFakeIsScrubbed` | crates/invisibool-engine/src/idempotence.rs:98-107 | if the fake of a value is registered too, the second scrub changes every text in which the first found that value, if the first value found again is not a beginning of its replacement or the other way round |
| `Fpe.FakeOfFake` | crates/invisibool-engine/src/tokenizer/fpe.rs:207-226 | under every FF1, a value's fake registered in the same way has a fake of its own, which differs from it if and only if it differed from the value |
| `ScrubTwice.ValueAndFakeAlternate` | crates/invisibool-engine/src/idempotence.rs:98-107 | so under every FF1, in any engine that has both among its registrations, and different, the second scrub changes every text in which the first found the value; the proviso is only for a third value found first |
| `ScrubTwice.FakeIsScrubbedAgain` | crates/invisibool-engine/src/idempotence.rs:98-107 | in every such engine the value itself, as a text, becomes its fake and then the fake's fake, another text if and only if value and fake differ |
| `ScrubTwice.SecondScrubUndoesFirst` | crates/invisibool-engine/src/idempotence.rs:98-107 | two registered values, each the fake of the other, in any engine: the second scrub undoes the first |
| `SingleRegistration.RunsRoundTrip` | crates/invisibool-engine/src/engine.rs:283-479 | one prefix-free registration: restore undoes scrub when every alphabet run at least as long as the value is the value |
| `SingleRegistration.ScrubThenRestore` | crates/invisibool-engine/src/engine.rs:261-479 | the two calls one after the other return such an input, and the counts agree |
| `Examples.RoundTripPremisesHold` | crates/invisibool-engine/src/engine.rs:576-622 | a concrete engine and text meet every premise of the stateless round trip |
| `Examples.SessionPremisesHold` | crates/invisibool-engine/src/engine.rs:931-980 | a text that is one registered value, scrubbed into an empty map, meets every premise of the session round trip whenever its fake is not part of it |
| `Examples.DeskRoundTrip` | crates/invisibool-engine/src/engine.rs:931-980 | a phone number registered for the session comes back through the two calls (under constant hashes) |
| `Examples.ScrubAlternates` | crates/invisibool-engine/src/idempotence.rs:98-107 | such a pair exists for a lawful stand-in for FF1, the cipher that complements digits: 314159 and 685840 are scrubbed into one another |
| `MixedExamples.NoteRoundTrip` | crates/invisibool-engine/src/engine.rs:274-533 | a concrete text with an FF1 value and a phone number meets every premise of the mixed round trip (under that cipher and constant hashes) |
| `MixedExamples.NoteThroughFile` | crates/invisibool/src/cli/commands.rs:307-466 | and every premise of the round trip through the session file, on an empty disk |
| `VaultIo.OrphansAreTemporaries` | crates/invisibool-engine/src/vault/io.rs:110-118 | every temporary name is found by the orphan scan, the target never is |
| `VaultIo.Disk.WriteAtomic` | crates/invisibool-engine/src/vault/io.rs:127-177 | the five steps, with an early exit at each, leave exactly the specified files and error |
| `VaultIo.Disk.ReadIfExists` | crates/invisibool-engine/src/vault/io.rs:179-189 | absent is not an error, any other failure is |
| `VaultIo.Disk.CleanOrphans` | crates/invisibool-engine/src/vault/io.rs:191-217 | removes listed temporaries that can be removed and nothing else |
| `VaultIo.WriteIsAllOrNothing` | crates/invisibool-engine/src/vault/io.rs:127-177 | the target has the new bytes if and only if the rename was reached, and no file but it and one temporary changes, which is gone after the rename and holds a beginning of the bytes until then |
| `Vault.SealThenOpen` | crates/invisibool-engine/src/vault/mod.rs:518-597 | opening undoes sealing; another magic is refused before any decryption |
| `Vault.OpenIff` | crates/invisibool-engine/src/vault/mod.rs:548-597 | a file opens as a text if and only if it is the magic, version 1, three octets, a nonce of 24, and the seal of that text under the nonce and those twenty octets |
| `Vault.RefusedIff` | crates/invisibool-engine/src/vault/mod.rs:548-597 | which refusal: shorter than 60 octets; else another magic; else another version; else no seal of anything |
| `Vault.DecryptVaultIff` | crates/invisibool-engine/src/vault/mod.rs:548-597 | decrypting gives contents if and only if the file is such a seal of a text that parses as them; otherwise the error of the step that refused it |
| `Vault.OpenOutcomeIff` | crates/invisibool-engine/src/vault/mod.rs:337-370 | opening succeeds if and only if there is a key, the read succeeds, and the file is missing, for the empty vault, or a vault of the contents under that key |
| `Vault.MagicsDiffer` | crates/invisibool-engine/src/vault/format.rs:40 | vault and session magic have 16 octets and differ |
| `Vault.VaultRoundTrip` | crates/invisibool-engine/src/vault/mod.rs:518-597 | decrypting undoes encrypting |
| `Vault.RegisterReplaces` | crates/invisibool-engine/src/vault/mod.rs:375-378 | registering replaces by label, keeps everything else in order, adds the entry at the end, and keeps labels distinct |
| `Vault.RetainInOrder` | crates/invisibool-engine/src/vault/mod.rs:382-386 | what is kept is kept in its order and as often as it was there |
| `Vault.RetainDrops` | crates/invisibool-engine/src/vault/mod.rs:382-386 | forgetting removes exactly the label's entries; the length changes exactly if there was one |
| `Vault.FetchOrCreate` | crates/invisibool-engine/src/keychain/mod.rs:145-166 | a key is returned exactly if the fetch succeeds and one was held or could be stored; it is the one held, which never changes, or the generated one, which is stored |
| `Vault.Keychain.FetchOrCreateKey` | crates/invisibool-engine/src/keychain/mod.rs:145-166 | fetch, generate, store, return, in this order |
| `Vault.VaultFile.OpenAt` | crates/invisibool-engine/src/vault/mod.rs:337-370 | orphan cleanup, key, read, decrypt; the result or exactly the error of the first that failed; a vault that was read is one whose file is a seal of its contents |
| `Vault.VaultFile.Register` | crates/invisibool-engine/src/vault/mod.rs:375-378 | the new contents |
| `Vault.VaultFile.Forget` | crates/invisibool-engine/src/vault/mod.rs:382-386 | the new contents, and whether an entry was removed |
| `Vault.VaultFile.Save` | crates/invisibool-engine/src/vault/mod.rs:425-430 | encrypts and writes atomically |
| `VaultRuns.InvStep` | crates/invisibool-engine/src/vault/mod.rs:337-430 | every open, register, forget, save stopped anywhere and crash keeps: the file is the last renamed save, encrypted under the slot's key; a stored key never changes |
| `VaultRuns.OpenGivesLastSave` | crates/invisibool-engine/src/vault/mod.rs:337-370 | an open whose keychain and read succeed gives that save |
| `VaultRuns.SavesSurvive` | crates/invisibool-engine/src/vault/mod.rs:337-430 | after every run, such an open returns exactly the last save that reached its rename, or the empty vault, and leaves the vault file alone; whatever key the keychain held at any point of the run it still holds, so there is one key ever stored |
| `VaultRuns.StoppedSaveIsInvisible` | crates/invisibool-engine/src/vault/io.rs:127-177 | a save stopped before its rename changes nothing that a later open returns |
| `VaultProcesses.StepKeepsIff` | crates/invisibool-engine/src/vault/mod.rs:337-430 | any number of processes, opens and saves interleaved step by step: a step keeps file, keychain and every open vault in agreement, and every save about to rename whole, if and only if it does not store a key over another that somebody works under |
| `VaultProcesses.RunKeepsIff` | crates/invisibool-engine/src/vault/mod.rs:337-430 | so over every run |
| `VaultProcesses.VaultSurvives` | crates/invisibool-engine/src/vault/mod.rs:337-430 | in every such run whoever has its key and reads gets exactly the last renamed save, or the empty vault, under the slot's key |
| `VaultProcesses.FilledSlotIsSafe` | crates/invisibool-engine/src/keychain/mod.rs:145-166 | once the slot is filled and nobody is about to store, no run can overtake and the key never changes |
| `VaultProcesses.RacingOpens` | crates/invisibool-engine/src/keychain/mod.rs:134-166 | two first opens that both find the slot empty can leave a save under a key the keychain no longer holds |
| `VaultUpdates.EntrySurvivesIff` | crates/invisibool-engine/src/vault/mod.rs:337-430 | any number of processes, steps interleaved: an entry of the file that nobody registers or forgets stays in it throughout if and only if every process that replaces the file had it in memory at the start or has read the file since |
| `VaultUpdates.RegistrationIsLost` | crates/invisibool-engine/src/vault/mod.rs:375-430 | two processes that both opened, each registers an entry and saves: the first one's entry is in the file and then gone |
| `SessionFile.SessionFileRoundTrip` | crates/invisibool-engine/src/session_file.rs:315-395 | decrypting undoes encrypting until the expiry, and is refused as expired from then on |
| `SessionFile.KindsAreNotConfused` | crates/invisibool-engine/src/session_file.rs:350-365 | vault bytes and session bytes are never accepted for one another, whatever the keys |
| `SessionFile.DecryptSessionIff` | crates/invisibool-engine/src/session_file.rs:350-395 | session bytes give their contents if and only if they are the seal, as a session, of a text that parses as them, and the time is before their expiry; every other outcome has its exact condition |
| `SessionFile.FirstCallCreates` | crates/invisibool-engine/src/session_file.rs:186-193 | the first call to reach its rename creates the session at its time; from then on it loads, with that time and the time 1800 seconds later (at most 2^64 - 1) for expiry, before the expiry and at no later time |
| `SessionFile.LaterCallKeeps` | crates/invisibool/src/cli/commands.rs:307-354 | a later call keeps both times; it fails if and only if it comes 1800 seconds or more after the creation, and then changes no file |
| `SessionFile.TtlNeverExtends` | crates/invisibool/src/cli/commands.rs:307-354 | so over any sequence of calls |
| `SessionFile.SessionLife` | crates/invisibool/src/cli/commands.rs:307-354 | the whole life from a path without a file: nothing until a call reaches its rename; then every call in the 1800 seconds after that call loads the session with that time of creation, and every later one fails and changes no file |
| `SessionCommands.ExportEntries` | crates/invisibool-engine/src/tokenizer/session.rs:149-156 | lists exactly the pairs of the map, each once, in some order |
| `SessionCommands.ImportOfPaired` | crates/invisibool-engine/src/tokenizer/session.rs:161-184 | importing a list without repetitions gives inverse maps that list it again |
| `SessionCommands.ExportThenImport` | crates/invisibool/src/cli/commands.rs:340-349 | through the file and back: the same fakes for the same values, freshly stamped, inverse as before |
| `SessionCommands.ScrubCommand` | crates/invisibool/src/cli/commands.rs:307-359 | load or create, import, scrub, export, save; a load failure leaves every file as it was; the text is given out only if the save succeeded; the file never lists a fake or a value twice |
| `SessionCommands.UnusedCounts` | crates/invisibool/src/cli/commands.rs:408-466 | the number reported as unused is that of the entries whose fake occurs nowhere in the text |
| `SessionCommands.RestoreCommand` | crates/invisibool/src/cli/commands.rs:408-466 | load, import, restore, remove the file; a missing file is an error and changes nothing; entries not in the text are counted |
| `SessionCommands.ScrubThenRestoreCommands` | crates/invisibool/src/cli/commands.rs:307-466 | the two commands one after the other, through the disk and in two processes, return the input before the session expires, and the counts agree |
| `SessionCalls.ScrubCall` | crates/invisibool/src/cli/commands.rs:307-359 | the scrub command is one such call, whatever the file held, and gives its text out only if it got as far as the rename |
| `SessionCalls.TakeAddsPair` | crates/invisibool-engine/src/tokenizer/session.rs:100-133 | in a map just imported, with room for every value ever used, a use adds its pair, if it is not there, and takes nothing away |
| `SessionCalls.FileAddsUp` | crates/invisibool/src/cli/commands.rs:307-359 | after any number of calls on one path, stopped anywhere, in processes and engines of their own, the file lists exactly what it listed at first and the pairs of the calls that got as far as their rename, as long as all values ever used fit the 4096 entries and fakes and values correspond one to one |
| `SessionCalls.RestoreAnyOutput` | crates/invisibool/src/cli/commands.rs:307-466 | so the restore command gives back the input of any of those calls from its output, while the session has not expired |

## Left out

- FF1, AES, HMAC, HKDF, SHA-256, XChaCha20-Poly1305, JSON, Aho-Corasick and regular expressions themselves: they enter as parameters, laws or a leftmost-longest specification.
- Overlapping `read_text` calls, leftovers of a read that timed out by itself, and clipboard owners other than this program.
- X11Client.X11Inner.TakeIncrChunk: takes the whole property; the program asks for at most 8 MiB, more than this owner ever puts there.
- X11Client.X11Inner.WriteText: the server time is an argument, its fetch is `X11Timestamp`; privacy hints are not modelled.
- Mac.LowDigits: puts each digit in front, where the program appends and reverses at the end.
- Restore.SortDedup: insertion sort on values, where the program sorts and deduplicates a vector in place; likewise the two sorts of `Detector.Scan`.
- Detector.Scan: takes the matchers' results as arguments; the pattern matcher is not modelled.
- VaultRuns.SavesSurvive: what survives a loss of power (the point of the two flushes) is not modelled, only the order of the steps.
- VaultProcesses.StepKeepsIff: registering and forgetting are one arbitrary edit of the entries.
- SessionCommands.ScrubThenRestoreCommands: the vault, and so the engine, is the same for both commands.
- SessionRestore.EveryPairIsHeld: one direction; for which maps with live orphans every fitting scrub holds its pairs depends on the order of their stamps and is not characterised, `NonInverseStoreLosesPair` shows one that fails.
- SessionCalls.FileAddsUp: calls do not overlap; a call begins with the files that the one before left.
- ScrubTwice.ScrubTwiceIff: needs that the first value found again that changes neither begins with its replacement nor is a beginning of it; otherwise different replacements can join to the text they replace, as `ab` and `c` by `a` and `bc`.
- Command-line prompts, messages, exit codes and path choice.
- The TARGETS, TIMESTAMP and MULTIPLE targets, change counts, subscriptions and the dispatcher.
- The control socket, lock file and peer check (`invisibool-control`); the in-memory clipboard.
- Non-ASCII text and byte/char boundaries; memory wiping, constant-time comparison, redacted debug output.
