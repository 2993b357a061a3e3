# A verified model of the RFID access controller's core

An ESP32 board keeps a list of RFID cards in two files on SPIFFS, serves a web
page to manage them, answers DNS queries as a captive portal and accepts firmware
uploads. This project models the parts of it that compute something, and proves
what they keep over all inputs, all failures of storage and all interleavings of
tasks. `dafny verify dfyconfig.toml` checks everything.

**The card database** (`components/rfid_manager`, on `components/spiffs_storage`)
has no copy in memory: every call takes a mutex, reads an 8-byte header and
44-byte records from disk, and writes the two files back one after the other.

- `Codec` is the byte layout, `Storage` the file operations with every way they can
  come out (success, some of the bytes, some of the bytes without a word, nothing),
  `Protocol` each call as a machine that makes one storage access per step, and
  `CardList` the abstract list.
- `Manager` holds the C functions as methods of a class with loops over arrays; each
  is proved to do what the machine does, for every outcome of every access.
- `Refinement` proves that the files stand for the list; one outline of what the disk
  holds at each program point gives this and the detection of torn updates.
- `System` interleaves the accesses of any number of tasks; `Crash` stops calls in
  the middle, `Faults` lets their writes fail or lose bytes; `Defaults` is about the
  three default cards.
- `Behaviour` says in literal values what a caller sees of each call: the ids, names,
  times and result codes, on lists and on disks that cannot be read.

**The card list as JSON**: `Printer` is the bounded buffer, `Listing` the text and its
meaning, `Json` a reader for RFC 8259, `Numerals` decimal and hexadecimal numbers;
`CardService` is the request handler that puts all of this together.

**The rest**: `Dns`, `DnsMessage` and `DnsReply` are the DNS name parser, a reader for
RFC 1035 messages and the reply builder; `Ota` is the receive loop of a firmware
upload; `GetData` the `/getData` response; `RfidJs` the card ids of the web page;
`CStr` strstr and snprintf.

## What the proofs turned up

- Cutting the power between the two writes of an update is detected by the validity
  check, except where the header counts no cards. That exception has consequences: an
  interrupted removal of the only card passes the check, and the next add then brings
  the removed card back in place of the one added, with every call reporting success
  (`Crash.RemovedCardReturns`).
- An add whose append fails half way leaves bytes behind the records. They are
  invisible to check, count and list, but the next add puts its record behind them, so
  the disk no longer stands for the list (`Faults.AddNeedsWholeDisk`).
- A header write that is cut off leaves a short file, and reading it is not an error: the
  next call fills the header up with whatever its local variable held. Check, count and
  list answer as before exactly if the file was not opened at all, or both bytes of the
  count went down and it is the old count; so a failed save can be harmless and a failed
  add or removal cannot, unless nothing was opened (`Faults.FailedHeaderWrite`). The
  rollback of an add works exactly if it writes two bytes or more
  (`Faults.FailedAddInvisible`).
- A write whose last bytes are lost in fclose is reported as a success. In the cards file
  the validity check always sees it; in the header it may not
  (`Faults.LostCardsWrite`, `Faults.LostHeaderWrite`).
- Names are printed without escaping: the JSON list means the stored cards if and only
  if every name is UTF-8 without a quotation mark, a backslash or a control character.
  A name given in UTF-8 is stored as UTF-8 exactly if it has at most 31 bytes or byte 31
  begins a character (`Listing.StoredNameUtf8`).
- A removal that cannot open the cards file reports failure, and from then on the last
  card of the list is gone instead: the one to be removed is still accepted
  (`Faults.WrongCardRemoved`).
- Boot does not run the validity check. Of all updates cut off between their two writes it
  refuses only the first add to a list that has no cards file yet (`Crash.TornBoots`).
- If stat fails on the header file at start-up, load_defaults replaces the header by an
  empty one (`System.StartupHarmless`).
- 31 cards always fit the server's 3072-byte buffer, 32 active ones too, 32 arbitrary
  ones not always.
- The DNS responder tests bits 3 to 6 of the flags where it means the opcode in bits 11
  to 14, so a query with the AD or CD bit set gets no answer and the opcode is ignored;
  it leaves the answer to a query for the root name empty; and however many questions a
  query has, it fills in at most one answer, so that several questions are never all
  answered.
- A timeout while an upload is received does not retry, as the comment beside it says,
  but ends the loop; the handler goes on to close the update.
- The page's admin guard also refuses `12345678`, which it reads as the card with that
  decimal id.
- The unit test that removes card 0x12345678 and expects success
  (components/rfid_manager/test/test_rfid_manager.c:58-61) contradicts the guard in
  rfid_manager_remove_card; the model follows the guard.

## Model

| member | source | states |
|---|---|---|
| Codec.HeaderRoundTrip | components/rfid_manager/rfid_manager.c:21-26 | decoding the 8 bytes of a header gives the header back |
| Codec.HeaderBytesRoundTrip | components/rfid_manager/rfid_manager.c:21-26 | every 8 bytes are the encoding of the header they decode to |
| Codec.CardsRoundTrip | components/rfid_manager/include/rfid_manager.h:14-20 | decoding the records of any list of cards gives the list back |
| Codec.CardsBytesRoundTrip | components/rfid_manager/include/rfid_manager.h:14-20 | every 44n bytes are the encoding of the n cards they decode to |
| Codec.HeaderBytes | components/rfid_manager/rfid_manager.c:21-26 | count in bytes 0 and 1, capacity in 2 and 3, checksum in 4 to 7, little-endian |
| Codec.CardBytes | components/rfid_manager/include/rfid_manager.h:14-20 | id in bytes 0 to 3, active in 4, name in 5 to 36, time in 40 to 43, little-endian |
| Codec.EncodeAppend | components/rfid_manager/rfid_manager.c:198 | appending a record to the cards file is appending a card to the list |
| Codec.NameField | components/rfid_manager/rfid_manager.c:184-186 | the stored name is the first 31 bytes of the given one, and zeros behind it |
| Storage.Written | components/spiffs_storage/spiffs_storage.c:306-348 | a write reports success exactly if the file opens and fwrite takes every byte, and then leaves the old content (when appending) and the data unless fclose loses some; no write touches another path |
| Storage.WriteLeaves | components/spiffs_storage/spiffs_storage.c:306-348 | what stands in the file after a write with any outcome, whole, partial or lost |
| Storage.ReadGives | components/spiffs_storage/spiffs_storage.c:350-376 | what stands in the buffer after a read with any outcome: as much of the file as was moved, then what was there before |
| Storage.DeleteTakes | components/spiffs_storage/spiffs_storage.c:257-274 | a delete takes this file and no other, exactly if it is there and can be unlinked |
| Storage.ReadBack | components/spiffs_storage/spiffs_storage.c:350-376 | a read succeeds exactly if the file can be opened and bytes are asked for, however few the file has; what is there comes first |
| Storage.FileSystem.WriteFile | components/spiffs_storage/spiffs_storage.c:306-348 | truncating or appending in place, for every outcome, is the function Written; writing no bytes fails before any access |
| Storage.FileSystem.ReadFile | components/spiffs_storage/spiffs_storage.c:350-376 | the read is the function ReadBack and changes no file; asking for no bytes fails before any access |
| Storage.FileSystem.FileExists | components/spiffs_storage/spiffs_storage.c:221-234 | true exactly if the file is there and its size can be had; nothing changes |
| Storage.FileSystem.GetFileSize | components/spiffs_storage/spiffs_storage.c:236-255 | -1 exactly if the file is not there or stat fails, otherwise its length |
| Storage.FileSystem.DeleteFile | components/spiffs_storage/spiffs_storage.c:257-274 | removes just this file, or nothing and reports failure |
| Protocol.Find | components/rfid_manager/rfid_manager.c:167-176 | the position of the first card with the id, or the length |
| Protocol.Step | components/rfid_manager/rfid_manager.c:119-710 | every access brings a call nearer its end: at most nine are made |
| Manager.FindCard | components/rfid_manager/rfid_manager.c:389-407 | the scan loop finds the first card with the id |
| Manager.ShiftDown | components/rfid_manager/rfid_manager.c:283-287 | the in-place loop removes one card and keeps the order of the others |
| Manager.RfidManager.AddCard | components/rfid_manager/rfid_manager.c:119-219 | result, files and number of accesses are the machine's for every outcome of every access; the mutex is given back on every path; a NULL name touches nothing |
| Manager.RfidManager.RemoveCard | components/rfid_manager/rfid_manager.c:221-339 | the same for removal, the admin card refused before anything is read |
| Manager.RfidManager.CheckCard | components/rfid_manager/rfid_manager.c:341-417 | the same for the check, which changes no file |
| Manager.RfidManager.GetCardCount | components/rfid_manager/rfid_manager.c:419-442 | the same for the count; 0 when the header cannot be read |
| Manager.RfidManager.ListCards | components/rfid_manager/rfid_manager.c:444-497 | the same for listing into a buffer of any number of cards |
| Manager.RfidManager.SaveToFile | components/rfid_manager/rfid_manager.c:499-537 | the same for saving |
| Manager.RfidManager.LoadFromFile | components/rfid_manager/rfid_manager.c:539-587 | the same for loading, which changes no file |
| Manager.RfidManager.FormatDatabase | components/rfid_manager/rfid_manager.c:589-624 | the same for formatting; a failed unlink is not an error |
| Manager.RfidManager.IsDatabaseValid | components/rfid_manager/rfid_manager.c:650-710 | the same for the validity check |
| Manager.RfidManager.GetCardListJson | components/rfid_manager/rfid_manager.c:712-822 | no file changes; on success the buffer is the printer's output for the stored cards, on failure the report "Failed to read database", "Memory allocation failed" or "Failed to read cards" that belongs to it |
| Manager.RfidManager.Init | components/rfid_manager/rfid_manager.c:63-84 | result, files and number of accesses for every outcome of every access |
| Defaults.InitKeeps | components/rfid_manager/rfid_manager.c:63-84 | without faults an existing valid database is left byte for byte, and from an empty disk an empty one is made |
| Defaults.InitCreates | components/rfid_manager/rfid_manager.c:63-84 | without faults a missing header is created whatever else is on the disk, and a left-over cards file stays |
| Manager.RfidManager.LoadDefaults | components/rfid_manager/rfid_manager.c:87-117 | result, files and number of accesses for every outcome of every access: the loop stops at the first add that reports anything but success or "already there" |
| Defaults.LoadsDefaults | components/rfid_manager/rfid_manager.c:87-117 | without faults the list becomes the one AddAll gives; if nothing is missing no byte changes |
| Manager.RfidManager.ResetToDefaults | components/rfid_manager/rfid_manager.c:626-648 | result, files and number of accesses for every outcome of every access |
| Defaults.ResetLoads | components/rfid_manager/rfid_manager.c:626-648 | from any disk, corrupt ones included, without faults: OK, and exactly the three default cards in order |
| Behaviour.AddStores | components/rfid_manager/rfid_manager.c:145-215 | an add is refused with its own code if the id is there or the list is full, and then writes nothing; otherwise a later dump shows the cards there were and one active card with the id, the first 31 bytes of the name and the time |
| Behaviour.RemoveTakesOut | components/rfid_manager/rfid_manager.c:225-339 | the first card with the id goes, the others stay in order; card 0x12345678 is refused before any access |
| Behaviour.ReadsTell | components/rfid_manager/rfid_manager.c:341-497 | check, count, both listings, load and the validity check on a disk that stands for a list |
| Behaviour.SaveSums | components/rfid_manager/rfid_manager.c:519-527 | a save stores n(n-1)/2 as checksum and changes nothing else |
| Behaviour.FormatLeaves | components/rfid_manager/rfid_manager.c:600-623 | a format leaves the header bytes 0 0 200 0 0 0 0 0, no cards file, and every other file as it was |
| Behaviour.FormatIgnoresUnlink | components/rfid_manager/rfid_manager.c:611-623 | if stat or the unlink fails the cards file stays and the result is still OK |
| Behaviour.NoHeader | components/rfid_manager/rfid_manager.c:136-143 | without a readable header file every call that begins with it fails with its own code and writes nothing |
| Behaviour.NoMemory | components/rfid_manager/rfid_manager.c:151-157 | without memory for the cards the code is NO_MEM and nothing is read or written |
| Behaviour.NoCards | components/rfid_manager/rfid_manager.c:159-165 | without a readable cards file the calls that need it fail and write nothing |
| Behaviour.ListTells | components/rfid_manager/rfid_manager.c:461-496 | listing into a buffer of any size, on any disk with a readable header |
| Behaviour.CheckTells | components/rfid_manager/rfid_manager.c:352-416 | for every disk and every outcome: access is granted exactly to an id whose first record was read and is active, and every other case has its code |
| Behaviour.LoadTells | components/rfid_manager/rfid_manager.c:550-586 | the result of loading for every disk and every outcome |
| Behaviour.ValidateTells | components/rfid_manager/rfid_manager.c:661-709 | the verdict for every disk and every outcome |
| Behaviour.TwoHundredFit | components/rfid_manager/rfid_manager.c:182-215 | of any adds of different ids after a format of any disk the first 200 are accepted and the others are not |
| Behaviour.ResetStores | components/rfid_manager/rfid_manager.c:28-32 | after a reset of any disk a dump shows 0x12345678 "Admin Card", 0x87654321 "User Card 1" and 0xABCDEF00 "User Card 2", active, at the times of their adds |
| Behaviour.LoadGoesOn | components/rfid_manager/rfid_manager.c:103-116 | for every disk with a header and every outcome: these three adds in turn, up to the first that reports anything but success or "already there" |
| Behaviour.StartUpFails | components/rfid_manager/rfid_manager.c:64-100 | if the missing header cannot be created, init and load_defaults fail and the disk is as it was |
| Behaviour.ResetStops | components/rfid_manager/rfid_manager.c:630-636 | a reset whose format fails loads nothing |
| CardList.Apply | components/rfid_manager/rfid_manager.c:119-624 | no call makes a list longer than its capacity |
| CardList.ApplyKeepsGood | components/rfid_manager/rfid_manager.c:119-624 | every call keeps ids distinct, at most 200 cards, every card active and its name terminated |
| CardList.GoodAnswers | components/rfid_manager/rfid_manager.c:387-407 | on such a list a check never meets an inactive card |
| CardList.OthersKept | components/rfid_manager/rfid_manager.c:119-339 | a call other than a format changes what is stored under no id but its own |
| CardList.AdminStays | components/rfid_manager/rfid_manager.c:225-230 | only a format takes the admin card out |
| CardList.RemoveUndoesAdd | components/rfid_manager/rfid_manager.c:119-339 | an accepted add is found by a check, and removing it gives back the list there was |
| CardList.RemovedIsGone | components/rfid_manager/rfid_manager.c:274-292 | after a removal a check answers "not found" |
| Refinement.RepresentsOne | components/rfid_manager/rfid_manager.c:136-165 | the bytes on disk determine the one list they stand for |
| Refinement.StepKeepsOutline | components/rfid_manager/rfid_manager.c:119-710 | every step of every call keeps the outline of what the disk holds at its program point |
| Refinement.CallRefines | components/rfid_manager/rfid_manager.c:119-710 | without faults a call does to the files what it means for the list (append, delete the first match keeping the order, look up, list, count, format) and answers what the list answers |
| Refinement.FormatFromAnything | components/rfid_manager/rfid_manager.c:589-624 | a format without faults gives an empty valid database from any disk |
| Crash.ValidatesIff | components/rfid_manager/rfid_manager.c:650-710 | what the validity check accepts: count within capacity, and for a positive count a cards file of exactly that size |
| Crash.TornUpdatesDetected | components/rfid_manager/rfid_manager.c:190-198 | stop any call after any number of accesses: between its two writes the check rejects the disk unless the header counts no cards, and at any point it accepts only the list before, the list after, or such a header |
| Crash.LoadsIff | components/rfid_manager/rfid_manager.c:539-587 | what load_from_file accepts: count within capacity, and for a positive count a cards file of any size |
| Crash.TornBoots | components/rfid_manager/rfid_manager.c:539-587 | stop any call after any number of accesses: load_from_file refuses the disk exactly if an add to an empty list stopped between its writes and there is no cards file |
| Crash.ReadableAnswers | components/rfid_manager/rfid_manager.c:379-407 | check, count and list do not see bytes that follow the counted records |
| Crash.ValidatesMeans | components/rfid_manager/rfid_manager.c:695-705 | a disk the check accepts stands for a list, or counts no cards with a cards file left over |
| Crash.TornAddOnLeftOvers | components/rfid_manager/rfid_manager.c:189-198 | on such a left-over file an interrupted add is accepted exactly if the file is one record long |
| Crash.RemovedCardReturns | components/rfid_manager/rfid_manager.c:303-325 | after an interrupted removal of the only card the next add reports success, and then the removed card is found and the added one is not |
| Faults.FailedAddInvisible | components/rfid_manager/rfid_manager.c:189-206 | an append that fails after any part of the record, with any outcome of the rollback: reading calls answer as before, whatever their reads pick up, exactly if the rollback wrote at least two bytes; after a whole rollback header and records are byte for byte as before, and exactly which disks the check then accepts; if the rollback could not open the file the check rejects the disk |
| Faults.AddNeedsWholeDisk | components/rfid_manager/rfid_manager.c:182-210 | a later add gives a disk that stands for the longer list exactly if the cards file had the size the count asks for |
| Faults.FailedRemoval | components/rfid_manager/rfid_manager.c:302-334 | a removal whose cards file cannot be rewritten or deleted reports failure and rolls nothing back: the header counts one card fewer, and the check rejects the disk exactly if cards are left to count; if the file could not be opened reading calls answer from the list without its last card, and if it was cut off they answer as no list does |
| Faults.WrongCardRemoved | components/rfid_manager/rfid_manager.c:302-334 | then the last card is no longer found, and the card that was to be removed still is unless it was the last |
| Faults.FailedHeaderWrite | components/rfid_manager/rfid_manager.c:189-196 | any accepted call whose header write fails in any way: it reports failure, exactly what the disk holds, and reading calls answer as before, whatever their reads pick up, exactly if the file was not opened, or the two bytes of the count went down and it is the old count |
| Faults.CutHeaderCounts | components/spiffs_storage/spiffs_storage.c:366-375 | with a header cut off after any number of bytes, the count can be that of every header that agrees with the bytes left |
| Faults.CutHeaderUnseen | components/spiffs_storage/spiffs_storage.c:366-375 | reading calls are right on such a disk, whatever their reads pick up, exactly if the two bytes of the count are there and right |
| Faults.CutHeaderChecked | components/rfid_manager/rfid_manager.c:671-710 | the check is sure to accept an intact list under such a header exactly if what is left of the capacity covers the count |
| Faults.LostHeaderWrite | components/spiffs_storage/spiffs_storage.c:321-347 | a header write that loses bytes in fclose: the call reports success, reading calls answer from the changed list exactly if two bytes arrived, and exactly when the check is sure to accept |
| Faults.LostCardsWrite | components/spiffs_storage/spiffs_storage.c:321-347 | a cards write that loses bytes in fclose: the call reports success, and the check rejects the disk |
| System.Serializable | components/rfid_manager/rfid_manager.c:119-710 | any interleaving of any tasks, with any storage faults: the calls run one at a time in the order they had the mutex give every task its replies and the disk its content, in program order |
| System.Linearizable | components/rfid_manager/rfid_manager.c:119-710 | without faults every execution is one of the atomic list, and the disk stands for the list whenever the mutex is free |
| System.PowerLossDetected | components/rfid_manager/rfid_manager.c:650-710 | at any moment of such an execution the check accepts the disk exactly if it stands for the list before or after the call under way, or counts no cards |
| System.StartupHarmless | components/rfid_manager/rfid_manager.c:91-101 | at any moment of a fault-free run, whoever holds the mutex, the unlocked start-up access finds the header and writes nothing; if stat fails and the write works, an empty header takes its place |
| System.SafeRuns | components/rfid_manager/rfid_manager.c:119-710 | in every run from a fresh database ids stay distinct, at most 200 active named cards are stored, no check answers "inactive", and the admin card stays until a format |
| Defaults.LoadedCards | components/rfid_manager/rfid_manager.c:103-116 | existing cards stay in front in order, the missing defaults follow in order as far as there is room, and the result is OK exactly if all fit |
| Defaults.LoadingIsIdempotent | main/main.c:40-44 | loading again at any later time changes nothing and reports the same |
| Defaults.LoadedFromEmpty | components/rfid_manager/rfid_manager.c:28-32 | an empty database gets exactly the three default cards in order |
| Defaults.TurnedDownAdd | components/rfid_manager/rfid_manager.c:167-176 | an add of a card that is there, or to a full database, writes nothing |
| Numerals.UndecDec | components/rfid_manager/rfid_manager.c:785-794 | the printed decimal digits stand for the number |
| Numerals.DecLengths | components/rfid_manager/rfid_manager.c:785-794 | how many digits 8, 16 and 32-bit numbers take at most |
| CStr.Snprintf | components/rfid_manager/rfid_manager.c:788-794 | as much of the text as fits and a NUL, the rest of the buffer untouched, the full length returned |
| Printer.EntryBound | components/rfid_manager/rfid_manager.c:777-794 | an entry takes at most 94 bytes, so with its comma less than the margin |
| Printer.PrintEntries | components/rfid_manager/rfid_manager.c:774-796 | the loop prints exactly the entries before the first that fails the margin test; the uint16_t length never wraps |
| Printer.PrintList | components/rfid_manager/rfid_manager.c:749-811 | buffer and result, inside the buffer, for every buffer of at least three bytes |
| Printer.OutputIsWhole | components/rfid_manager/rfid_manager.c:800-811 | with at least 40 bytes (42 from 1000 cards on) the forced closing is never reached, the text of the first k entries is whole and NUL-terminated, and the result is OK exactly if k is the number of cards |
| Printer.CompleteIff | components/rfid_manager/rfid_manager.c:775-796 | all cards are printed exactly if the last one is begun with 100 bytes free |
| Printer.ThirtyOneFit | components/app_local_server/app_local_server.c:32 | any 31 cards, and any 32 active ones, are printed completely into 3072 bytes |
| Printer.ThirtyTwoMayNotFit | components/app_local_server/app_local_server.c:32 | 32 cards with distinct ids that are not |
| Listing.ListReadsBack | components/rfid_manager/rfid_manager.c:788-794 | the text is JSON for exactly the cards printed if and only if every name is UTF-8 and can stand in a string unescaped |
| Listing.StoredNameUtf8 | components/rfid_manager/rfid_manager.c:185-186 | a name given in UTF-8 is stored as UTF-8 exactly if it has at most 31 bytes or the cut is not inside a character |
| Listing.CutName | components/rfid_manager/rfid_manager.c:185-186 | such a name: in UTF-8, and what is stored of it is not |
| Listing.ValueTells | components/rfid_manager/rfid_manager.c:788-794 | that JSON value determines count, ids, names, active flags and timestamps |
| Printer.PrintedReadsBack | components/app_local_server/app_local_server.c:987-993 | whenever the printer reports OK, the C string in the buffer reads back as the stored cards under that same condition |
| CardService.ListCardsHandler | components/app_local_server/app_local_server.c:968-1024 | for every disk and every outcome of every access: which answer is given, NotValid exactly if the check says so, and a list sent reads back as the cards found exactly if every name can be printed as it is; without faults on a good list it is sent exactly if its last card is begun with the margin free, so always up to 32 cards |
| CardService.RunsAreServed | components/app_local_server/app_local_server.c:968-1024 | in every fault-free run of any number of tasks from a fresh database what the handler needs holds whenever the mutex is free, with the same results |
| Printer.PrintedMeans | components/rfid_manager/rfid_manager.c:749-803 | the same with the members spelled out: status, count, and of each card id, name, active and timestamp with the values stored |
| Printer.ForcedOutput | components/rfid_manager/rfid_manager.c:804-811 | a buffer too small for an empty list gets what fits, then `]}` and a NUL, and NO_MEM |
| Printer.ErrorReads | components/rfid_manager/rfid_manager.c:744 | an error report is a JSON object of status "error" and the message |
| Dns.ParseName | components/app_local_server/dns_server.c:64-90 | in place: where the loop ends, the text it leaves, and that no access leaves the two buffers |
| Dns.NameParses | components/app_local_server/dns_server.c:64-90 | on every encoded name with a label: the labels joined by dots and the position just past the name, or nothing exactly if the labels with their dots exceed the buffer |
| DnsReply.Response | components/app_local_server/dns_server.c:93-160 | the result is -1, 0 or the request's length and 16 bytes a question, at most 256 |
| DnsReply.ReplyLength | components/app_local_server/dns_server.c:93-122 | what is returned for any bytes whatever as request, as far as names do not matter |
| DnsReply.QueryOutcome | components/app_local_server/dns_server.c:93-160 | what becomes of every query of one question of any type (for the root, types 1 to 255): refused, -1, a reply with the answer, or one whose answer is sixteen zero bytes, which do not read as a record |
| DnsReply.WriteAnswer | components/app_local_server/dns_server.c:142-156 | six field stores put the sixteen answer bytes in place and touch nothing else |
| DnsReply.ParseRequest | components/app_local_server/dns_server.c:93-160 | for every byte string as request: terminates, stays inside both buffers, and leaves the buffer and result of Response |
| DnsReply.ReplyTouchesOneSlot | components/app_local_server/dns_server.c:120-158 | for every request, whatever its question count, at most one answer is filled in; the rest is the request but for its header, and zeros |
| DnsReply.ManyQuestionsNotAnswered | components/app_local_server/dns_server.c:120-158 | a query of several questions and nothing else never gets a reply that reads as one type-A record for each |
| DnsReply.EncodedQueryAsks | components/app_local_server/dns_server.c:21-36 | the encoding of any single-question query reads as that query |
| DnsReply.QueryAnswered | components/app_local_server/dns_server.c:93-160 | a single-question type-A query is answered with its id and question, QR set and one A record with TTL 300 for exactly its name, if and only if the name is not the root, fits 128 bytes and bits 3 to 6 of the flags are clear |
| Ota.ReceiveUpload | components/app_local_server/app_local_server.c:398-502 | what is written, how many receive calls are made and how the handler goes on, for every sequence of chunks, timeouts and errors; only a receive without data ends the loop |
| Ota.WrittenStaysBelow | components/app_local_server/app_local_server.c:403-502 | the received count stays strictly below the content length |
| Ota.UploadIsWritten | components/app_local_server/app_local_server.c:457-502 | however an upload is cut into chunks, what is written is a beginning of what follows its first blank line, and all of it exactly if all of it arrived |
| GetData.StrTok | components/app_local_server/app_local_server.c:783-801 | successive tokens are the runs between commas that are not empty |
| GetData.TokensOfJoined | components/app_local_server/app_local_server.c:783-801 | any list of comma-free names sent joined by commas is split into exactly those names |
| GetData.TokensSplit | components/app_local_server/app_local_server.c:783-801 | a comma separates: the tokens before it and behind it are those of the two parts |
| GetData.FieldBound | components/app_local_server/app_local_server.c:850-904 | a field with its comma takes at most nine times its token with its own, and never fills the 256-byte buffer |
| GetData.RspString | components/app_local_server/app_local_server.c:850-904 | the temporary buffer holds the whole field as a C string |
| GetData.ResponseFits | components/app_local_server/app_local_server.c:746-807 | the response is at most nine times the key string and ten bytes, so below 3072 |
| GetData.BuildResponse | components/app_local_server/app_local_server.c:783-807 | in place: the buffer holds the fields joined by commas in braces, then zeros, and the length counts exactly them |
| GetData.ResponseReadsBack | components/app_local_server/app_local_server.c:783-807 | the response is a JSON object of exactly the requested names and values if and only if every token without a keyword is UTF-8 and can stand in a string unescaped |
| GetData.ResponseAnswers | components/app_local_server/app_local_server.c:850-904 | the response has one member for each token, in order, whose name and value are those of the first of the nine words in it, or the token and nothing, if and only if every token without a word is UTF-8 and can stand in a string unescaped |
| RfidJs.HexFormIs | components/app_local_server/webpage/rfid.js:27-33 | the prefix and eight digits in upper case |
| RfidJs.ToTextIs | components/app_local_server/webpage/rfid.js:27-33 | the digits printed are lower case, without leading zeros, and stand for the number |
| RfidJs.HexFormParses | components/app_local_server/webpage/rfid.js:27-57 | parsing undoes the padded upper-case hexadecimal form, for every 32-bit id |
| RfidJs.DecFormParses | components/app_local_server/webpage/rfid.js:27-57 | parsing undoes the decimal form, for every 32-bit id |
| RfidJs.BareDigitsParse | components/app_local_server/webpage/rfid.js:42-52 | up to eight digits without prefix are read as hexadecimal exactly if one is a letter |
| RfidJs.PrefixedParses | components/app_local_server/webpage/rfid.js:39-41 | after the prefix the hexadecimal digits count up to the first other character; without one it is no number |
| RfidJs.OtherTextParses | components/app_local_server/webpage/rfid.js:53-56 | a text that is neither prefixed nor up to eight hexadecimal digits is read as decimal up to the first other character |
| RfidJs.SignedParses | components/app_local_server/webpage/rfid.js:53-56 | a sign before the digits is taken |
| RfidJs.BlanksDoNotMatter | components/app_local_server/webpage/rfid.js:36-71 | blanks around a text change neither the id read nor what the guard stops |
| RfidJs.HexSearchIsExact | components/app_local_server/webpage/rfid.js:466-494 | searching for the hexadecimal form gives the cards with that id, in order, and no other |
| RfidJs.DecSearchFinds | components/app_local_server/webpage/rfid.js:466-494 | searching for the decimal form finds every card with that id |
| RfidJs.NameSearchIff | components/app_local_server/webpage/rfid.js:496-497 | a search by name finds a card exactly if the text stands in its name, letter case aside |
| RfidJs.IdSearchIff | components/app_local_server/webpage/rfid.js:474-494 | a search by id finds a card exactly if the text reads as its id or stands, in lower case, in its decimal, hexadecimal or prefixed form |
| RfidJs.FilterAppends | components/app_local_server/webpage/rfid.js:471 | the order is kept: searching two lists in turn is searching them together |
| RfidJs.FilterOne | components/app_local_server/webpage/rfid.js:466-471 | a card is found once or not at all, and by an empty query always |
| RfidJs.PartFinds | components/app_local_server/webpage/rfid.js:488-497 | any part of a card's name, in any letter case, and any part of its decimal id find it |
| RfidJs.AdminGuard | components/app_local_server/webpage/rfid.js:60-71 | the guard stops exactly the texts that read as the admin id and the text 12345678, which reads as another id, whatever trim and toLowerCase do |
| RfidJs.GuardOnPrintedForms | components/app_local_server/webpage/rfid.js:60-71 | of the forms the page prints the guard stops the admin card's, and the decimal form of card 12345678 |

## Left out

- Crash.TornUpdatesDetected: a write is one access. Power lost inside a write leaves the disk of a write that moves only some of its bytes; those disks are in Faults.FailedHeaderWrite and Faults.LostCardsWrite, not in this theorem.
- System.PowerLossDetected: the same.
- Manager.RfidManager.GetCardListJson: buffers of one or two bytes and names without NUL are excluded, because the C code would write in front of the buffer or read past a name; so are more than 200 cards in a buffer of more than 65536 bytes, where its 16-bit length would wrap. In runs without storage faults there are no such names and no more than 200 cards.
- Printer.PrintList: the same.
- Printer.PrintEntries: the same.
- CardService.ListCardsHandler: names without NUL are excluded as above; the texts of the fixed messages are not modelled, only which is sent.
- Manager.RfidManager.LoadDefaults: in System its adds are single calls of a task, whose program is fixed beforehand; that it stops at a full list is in the method and LoadsDefaults only.
- Manager.RfidManager.Init: mounting the file system and creating the mutex are left out. The access outside the mutex, here and in load_defaults, is no event of System; System.StartupHarmless says what it does between any two events of a run from a disk that has a header.
- Faults.LostHeaderWrite: one access is faulty at a time; several faulty accesses in one call are in the machine and the methods but in no theorem, except an append and its rollback.
- GetData.BuildResponse: the key string is taken from cJSON and is at most 245 bytes because the body is at most 255; the values come from other components within the sizes they promise.
- Ota.ReceiveUpload: a first chunk without a blank line before its first NUL is excluded, because the C code then computes with a null pointer. Results of esp_ota_write are ignored as in the code; esp_ota_end and the boot partition come after the loop and are not modelled.
- DnsReply.QueryAnswered: queries with several questions or further records; for those only the bounds, ReplyLength, ReplyTouchesOneSlot and ManyQuestionsNotAnswered are stated.
- DnsReply.QueryOutcome: a question for the root name of a type above 255, where the parser takes the type for a label.
- RfidJs.DecSearchFinds: a decimal query may also find cards whose digits contain it, which is intended partial matching.
- RfidJs.NameSearchIff: as in PartFinds, letter case is that of ASCII; JavaScript's toLowerCase knows more. (Where AdminGuard speaks of a text, it is what trim and toLowerCase leave, so nothing is assumed of them.)
- RfidJs.PartFinds: the same.
- RfidJs.BlanksDoNotMatter: blanks are those of ASCII; JavaScript's trim drops more.
- Json reads a surrogate pair of two `\u` escapes as two characters.
- Sockets, the HTTP server, Wi-Fi, SNTP, NVS, timers and logging; time, malloc results, compiler padding and uninitialised stack bytes are inputs.
- The checksum is a placeholder that nothing compares; it is modelled only as a value that is stored.
- Mount, wear levelling and garbage collection of SPIFFS are not modelled.
- Unaligned access through the packed DNS structures.
- The rename, create and line-reading functions of the storage component, the Wi-Fi retry counter, the HTTP monitor's switch, cJSON, and the page's DOM code.
