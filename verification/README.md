# Telemetrics client: a verified model

A Dafny model of the stateful kernels of the telemetry client, with proofs of what they promise over every input and every run.
Time, file contents, socket reads, the HTTP post, random ids and regular expression matching are inputs of the model.
`dafny verify dfyconfig.toml` checks the whole project.

## What is modelled

- **Delivery of records** (`RateLimiter`, `PostDaemon`, `PostRuns`, `PostDecisions`, `PostLifecycle`, `PostLimits`, `PostBackoff`, `SpoolCounter`, `SpoolPasses`, `TelemPostDaemon`; arithmetic in `Sums`).
  `PostDaemon` holds the decisions of the post daemon as functions on a state. `TelemPostDaemon` is the daemon itself, with its slot arrays and loops, proved against them.
  Files may arrive while the daemon waits, and before each file that it looks at.
  `PostRuns` shows that every run of the main loop is a sequence of four kinds of action: a file arrives, a staged file is processed, a spool pass looks at a file, a retry closes the bypass window.
  `PostDecisions` says what becomes of a record by its file, the clock and what was sent before, on the log and the directory.
  The theorems about whole runs are inductions over such sequences: no record is lost or acknowledged twice, no window of minutes carries more than its limit,
  the spool counter covers the files, a spool pass sends at most 51 records, retries end, and with the spool strategy, once retrying is over, a failed delivery keeps staged posts away for five minutes.
- **The way of a record** (`Headers`, `Sender`, `Receiver`, `RecordFile`, `RecordRoundTrip`; strings in `CStrings`).
  A record is framed by the library, received in pieces and parsed by the probe daemon, staged as a text file, and read by either of two readers.
- **The hash map** (`HashTable` on values, `NcHashmap` and `NcHashmapIter` on the heap) and what is built on it: **crash dumps** (`Pstore`) and the **INI reader** (`IniFile`, `IniMeaning`).
- **The journal** (`Decimal`, `JournalEntry`, `Journal`, `TelemJournal`, `JournalRuns`), with the retained copies that pruning deletes.
- **The base 64 encoder** (`Base64`), against a decoder written from section 4 of RFC 4648.
- **The oops parser** (`Oops`, `OopsMessages`, `KlogScanner`).
- **Polled descriptors and clients** (`PollClients`).

## Where the code does less than one would expect

Each of these is kept as it is in the code, with a lemma that says exactly when the expected property holds.

- A line of 4096 characters or more in a staged record is cut by the readers' line buffer, so the record does not come back (`RecordRoundTrip.EndToEnd`, `RecordRoundTrip.LongPathIsLost`). The library sends no such config path, because `stat` refuses it; another client of the socket can.
- The rate limiter clears its slots only when it charges, so after an idle time the check may count a slot of an earlier hour. It never counts too little (`RateLimiter.CountIsExactIff`, `RateLimiter.StaleSlotIsCounted`).
- A put into a hash map whose chain has a free entry before an occupied last one closes the chain into a cycle (`NcHashmap.NcHashmap.Put`, `HashTable.PutAfterRemoveIsUnsafe`). A lookup of the NULL key stops at any blank entry (`HashTable.LookupRefines`, `HashTable.NullStopsAtBlank`).
- A spool pass counts an unreadable file as sent and deducts its size (`SpoolCounter.SpoolKeepsCounterIff`, `SpoolCounter.UnreadableFileUndercounts`).
- Because the guard is `<=`, a spool pass sends 51 records where its limit is 50, exactly when its first file and 51 of its first 60 can be sent, and never more (`SpoolPasses.PassExceedsIff`, `SpoolPasses.FiftyOneAreSent`, `SpoolPasses.PassSendsAtMost`).
- Files that cannot be read use up the limit of a spool pass: 51 of them at the head of the listing keep it from posting anything, and they stay until they expire (`SpoolPasses.PassPostsIff`, `SpoolPasses.UnreadableFilesStarve`).
- The function that trims keys and values of an INI file looks for trailing blanks in the wrong place when there are leading ones, and may drop words (`IniFile.ChewIsTrimIff`, `IniFile.ChewEatsAWord`). Keys are not affected, values are (`IniMeaning.PairParts`).
- The journal counts one record per entry, which is the number of lines only for classifications without a newline (`JournalRuns.EntryCountsIff`, `JournalRuns.NewlineBreaksCount`). Classifications of staged records have none.
- Pruning writes the lines it keeps as C strings, so a line with a NUL byte loses what follows, its newline too (`JournalRuns.PruneKeepsLast`, `Journal.NulEndsACopy`). The daemon writes no such lines.
- The first part of a classification may have 41 characters, the others 40 (`Journal.PartsWithinLimitIff`, `Journal.FirstPartMayBeLonger`). The documentation gives 40 for all.
- A record that the journal rejects is retained in the place of the record before it (`JournalRuns.RetainedUnderItsIdIff`, `JournalRuns.ValuelessReplacesCopy`).
- A crash dump without a part above 0, such as one that fits into a single file, aborts the program (`Pstore.AbortsIff`, `Pstore.OnePartAborts`).

## Model

| member | source | states |
|---|---|---|
| `RateLimiter.RateLimitCheck` | src/telempostdaemon.c:56-84 | the loop over the slots, forwards and around the end of the ring, admits a record exactly when the 64-bit sum over the window ending now, and the record, are within the limit |
| `RateLimiter.RateLimitUpdate` | src/telempostdaemon.c:94-106 | the new ring: the current slot has grown, all slots outside the window are cleared, the others are as they were |
| `RateLimiter.CheckByMinuteOfHour` | src/telempostdaemon.c:392-423 | a check by the minute of the hour is the check at any absolute minute with that minute of the hour |
| `RateLimiter.ChargeByMinuteOfHour` | src/telempostdaemon.c:442-488 | the same for a charge |
| `RateLimiter.CheckDoesNotWrap` | src/telempostdaemon.c:56-84 | while the sixty slots sum to at most the limit, the 64-bit check equals the exact comparison |
| `RateLimiter.SafeInitially` | src/telempostdaemon.c:161-173 | a zeroed ring is safe |
| `RateLimiter.SafeWhileIdle` | src/telempostdaemon.c:56-106 | a ring stays safe however much time passes, stale slots or not |
| `RateLimiter.SafeAfterCharge` | src/telempostdaemon.c:455-488 | a record that passes the check and is charged leaves the ring safe: it covers what was sent in every minute of the live window, its total is within the limit, and so is every window of the history |
| `RateLimiter.CountIsExactIff` | src/telempostdaemon.c:56-106 | the check counts exactly what was sent in the window if and only if no stale slot falls into it, which an idle gap of at most 60 minus the window rules out |
| `RateLimiter.ExactAfterCharge` | src/telempostdaemon.c:94-106 | a charge that reads no stale slot keeps the ring exact |
| `RateLimiter.StaleSlotIsCounted` | src/telempostdaemon.c:56-106 | exactly an hour after a charge its slot is counted again |
| `RateLimiter.AdmittedIsSafe` | src/telempostdaemon.c:56-106 | over every history of admitted records no window of consecutive minutes, wherever it lies, carries more than the limit |
| `RateLimiter.AdmittedIsExact` | src/telempostdaemon.c:56-106 | over every admitted history with short gaps the ring is exact |
| `RateLimiter.CountIsIdeal` | src/telempostdaemon.c:56-106 | then the count of a check is the ideal count of a sliding window |
| `TelemPostDaemon.TelemPostDaemon.constructor` | src/telempostdaemon.c:161-205 | the daemon starts with empty rings, no bypass window and the measured size of the spool directory |
| `TelemPostDaemon.TelemPostDaemon.RateLimitChecks` | src/telempostdaemon.c:392-423 | limiting is switched off when neither limit is valid; otherwise a record may be sent exactly when each valid limit admits it |
| `TelemPostDaemon.TelemPostDaemon.DeliverRecord` | src/telempostdaemon.c:435-491 | the new state and the decision are those of `Deliver`: drop, spool and bypass, or post and charge |
| `TelemPostDaemon.TelemPostDaemon.ProcessStagedRecord` | src/telempostdaemon.c:493-590 | the new state and the decision are those of `ProcessStaged`, for unreadable, expired, undeliverable, bypassed and delivered records |
| `TelemPostDaemon.TelemPostDaemon.HandleStaged` | src/telempostdaemon.c:601-641 | a file is unlinked exactly when its processing said so |
| `TelemPostDaemon.TelemPostDaemon.ReceiveFiles` | src/telempostdaemon.c:696-733 | files that arrive meanwhile take free names and touch no other file |
| `TelemPostDaemon.TelemPostDaemon.StagingRecordsLoop` | src/telempostdaemon.c:601-641 | the whole scan, with the files that arrive during it, and the number of records it left |
| `TelemPostDaemon.TelemPostDaemon.ProcessSpooledRecord` | src/spool.c:130-198 | one file of a spool pass, with both counters and the deduction from the spool size |
| `TelemPostDaemon.TelemPostDaemon.SpoolRecordsLoop` | src/spool.c:84-128 | a whole spool pass over a listing, with the numbers of records processed and sent |
| `TelemPostDaemon.TelemPostDaemon.OneTurn` | src/telempostdaemon.c:643-774 | one turn of the main loop is `Turn`: the retry counter, the files that arrive, the scan, the events and the spool pass |
| `TelemPostDaemon.TelemPostDaemon.RunDaemon` | src/telempostdaemon.c:643-774 | the main loop, for any sequence of polls, ends in the state of `Run` |
| `TelemPostDaemon.TelemPostDaemon.ScanAndRun` | src/post.c:81-92 | the first scan and the loop, for any inputs, end in the state of `Program` |
| `PostRuns.RunIsActions` | src/telempostdaemon.c:643-774 | every run of the main loop, with the files that arrive before or during it, is a sequence of arrivals, staged steps, spool steps and resets of the bypass window |
| `PostRuns.ProgramIsActions` | src/post.c:81-92 | so is every run of the program: the scan at its start, and the loop |
| `PostDecisions.DiscardedIsRemoved` | src/telempostdaemon.c:508-548 | a staged file that is missing, unreadable, old, foreign or irregular, or any with delivery off, is removed; nothing is posted, and the spool size, the window and the limiters stay as they were |
| `PostDecisions.BypassedIsKeptIff` | src/telempostdaemon.c:549-563 | in the bypass window nothing is posted; a record is kept and counted if and only if it fits the quota |
| `PostDecisions.DeliveredOnce` | src/telempostdaemon.c:435-491 | outside of it there is one event; success removes the record, and a failure keeps it and opens the window with the spool strategy, and removes it without |
| `PostDecisions.UnlimitedIsPosted` | src/telempostdaemon.c:392-457 | without limits, or with limiting off, every wanted record outside the window is posted |
| `PostDecisions.PostedIff` | src/telempostdaemon.c:392-457 | over every run with short gaps, a wanted record outside the window is posted if and only if what was sent in the window of each limiter, and the record, are within its limit; otherwise it is held back |
| `PostDecisions.SpoolDiscards` | src/spool.c:168-171 | an old, foreign or irregular file is removed by a spool pass without being sent |
| `PostDecisions.SpoolPosts` | src/spool.c:172-181 | a readable file that the pass may still send is posted; success removes and counts it, a failure leaves file, spool size and number sent |
| `PostDecisions.SpoolDeducts` | src/spool.c:180-195 | what is counted as sent is deducted from a positive counter; a counter that is or becomes negative is measured again |
| `PostDecisions.RetryEndsIff` | src/telempostdaemon.c:745-759 | a scan ends retrying if and only if it leaves none of its files, or at the eighth attempt; otherwise the counter goes up by one |
| `PostDecisions.RetryStartsIff` | src/telempostdaemon.c:658-661 | with the spool strategy, retrying starts if and only if a delivery of the first scan failed or was held back |
| `PostDecisions.RetryIsNotBypassed` | src/telempostdaemon.c:668-673 | while retrying, a wanted record that comes alone with an event is posted or held back by a limit, never bypassed |
| `PostDecisions.StopsIff` | src/telempostdaemon.c:679-743 | a turn ends the loop if and only if a signal asks for it, or at a timeout with recycling on when no record came for 300 seconds |
| `PostDecisions.QuietTimeout` | src/telempostdaemon.c:735-766 | a timeout between spool passes, when nothing is retried, changes nothing but what arrives |
| `PostDecisions.SpoolPassIsDue` | src/telempostdaemon.c:761-765 | when nothing is retried and the daemon is not recycled, a spool pass is made once its time has come, and starts the time anew |
| `PostLifecycle.RunKeeps` | src/telempostdaemon.c:493-590 | with the spool strategy, delivery on and no quota, over every run a record that stays deliverable leaves the spool only by being acknowledged |
| `PostLifecycle.RunAcksOnce` | src/spool.c:84-198 | over every run and configuration no file is acknowledged twice |
| `PostLifecycle.RunKeepsOrAcks` | src/telempostdaemon.c:493-590 | the same for every sequence of actions: kept or acknowledged, and never both |
| `PostLifecycle.DaemonKeepsRecords` | src/telempostdaemon.c:643-774 | for every run of the daemon and every record that is in the spool at any point of it, from the start or having arrived: if it is deliverable to the end, it is at the end in the spool, unchanged, if and only if it was not acknowledged |
| `PostLifecycle.ArrivalIsKept` | src/telempostdaemon.c:696-733 | in particular this holds of every record that arrives during the run |
| `PostLimits.RunKeepsLimits` | src/telempostdaemon.c:435-491 | limiting stays in force over every run: it is not switched off, and both rings are those of the charges in the log |
| `PostLimits.LimitsInForceAtStart` | src/telempostdaemon.c:161-205 | it is in force at the start |
| `PostLimits.WindowsWithinLimits` | src/telempostdaemon.c:392-491 | over every run, from any state in which limiting is in force: in any window of consecutive minutes the records sent by deliver_record weigh at most the limit, for both limiters, and no ring sums to more than its limit |
| `PostLimits.DaemonWithinLimits` | src/telempostdaemon.c:643-774 | the same for every run of the main loop, whatever was sent or held back before it |
| `PostLimits.ProgramWithinLimits` | src/post.c:81-92 | the same for the whole program: from empty rings through the scan at its start and the loop, retries included |
| `PostLimits.CheckIsExact` | src/telempostdaemon.c:392-491 | over every run, for both limiters: while the gaps between charges, and from the last one to the check, are short, the check counts exactly what the log says was sent in its window, and lets a record pass if and only if that and the record are within the limit |
| `PostBackoff.RetryTurn` | src/telempostdaemon.c:643-774 | a turn keeps the retry counter in 0..7, never takes it up from 0, and moves it by one only on a timeout |
| `PostBackoff.RetriesEnd` | src/telempostdaemon.c:643-774 | over every run the counter is in 0..7 at the loop head, stays 0 once it is 0, and is 0 after as many timeouts as lead from its value to 8 |
| `PostBackoff.DelaysAreSquares` | src/telempostdaemon.c:643-673 | while retrying, the n-th wait is n squared seconds, at most 49 |
| `PostBackoff.RunHoldsOff` | src/telempostdaemon.c:38-47 | with the spool strategy, on every run without a retry the staged posts keep away from each failed or limited delivery for the bypass time |
| `PostBackoff.DaemonHoldsOff` | src/telempostdaemon.c:745-759 | this holds of every run of the daemon once retrying is over, and already in the turn with which it ends |
| `SpoolCounter.StageKeepsCounter` | src/telempostdaemon.c:522-578 | processing a staged file keeps the counter at least the size of the counted files |
| `SpoolCounter.QuotaBoundsSpool` | src/telempostdaemon.c:550-563 | a record that the quota lets in leaves the counted files below the quota |
| `SpoolCounter.SpoolKeepsCounterIff` | src/spool.c:164-196 | a spool step keeps the counter sound if and only if it counts as sent no file that is unreadable or uncounted, or enough is left after the deduction |
| `SpoolCounter.UnreadableFileUndercounts` | src/spool.c:138-185 | with an exact counter one unreadable file makes it undercount |
| `SpoolCounter.ArriveKeepsCounter` | src/telempostdaemon.c:696-765 | a new file does not disturb it |
| `SpoolCounter.RunKeepsCounter` | src/spool.c:84-198 | on every run whose spool passes touch readable, counted files only, the counter covers the counted files and is never negative |
| `SpoolCounter.DaemonKeepsCounter` | src/telempostdaemon.c:643-774 | the same for every run of the main loop |
| `SpoolCounter.SoundAtStart` | src/post.c:83-88 | the measured size of the directory is a sound start |
| `SpoolPasses.PassSendsAtMost` | src/spool.c:84-198 | whatever the listing and the answers, a pass counts at most 51 records as sent |
| `SpoolPasses.PassSends` | src/spool.c:84-198 | the exact number: none if the first file cannot be sent, otherwise as many of the first 60 as can be, up to 51 |
| `SpoolPasses.PassExceedsIff` | src/spool.c:172 | a pass exceeds its limit of 50 if and only if its first file and 51 of its first 60 can be sent |
| `SpoolPasses.FiftyOneAreSent` | src/spool.c:172 | a spool of 51 fresh files: all are counted as sent in one pass |
| `SpoolPasses.PassPostsIff` | src/spool.c:84-198 | a pass posts something if and only if one of its first 60 files can be posted with at most 50 before it that count as sent, and the first file counts as sent or is the one |
| `SpoolPasses.UnreadableFilesStarve` | src/spool.c:130-198 | when the first 51 files of a listing are unreadable, a pass posts nothing and leaves them where they are |
| `Sender.TelemRecord.constructor` | src/telemetry.c:797-946 | a new record has its fifteen header lines in order, and header_size is their length together |
| `Sender.TelemRecord.SetHeader` | src/telemetry.c:73-87 | one header line is set and its length added to header_size |
| `Sender.TelemRecord.SetEventId` | src/telemetry.c:1035-1052 | the event id is replaced exactly when it is 32 lower-case hexadecimal digits; header_size, which is not touched, remains the length of the headers |
| `Sender.TelemRecord.SetPayload` | src/telemetry.c:975-1000 | the payload is set exactly when it is text of at most 8192 bytes |
| `Sender.TelemRecord.FillFrame` | src/telemetry.c:1202-1308 | once a payload is set, the buffer filled field by field is the frame: sizes, config path, headers, payload, terminator |
| `Sender.WriteSocket` | src/telemetry.c:1064-1091 | what goes out is a prefix of the buffer, and all of it exactly when 0 is returned |
| `Receiver.HandleClient` | src/telemdaemon.c:114-204 | whatever pieces the reads come in, the body handed on is the one that the stream's first four bytes announce, and none if the size is out of bounds or the stream ends early |
| `Receiver.ProcessRecord` | src/telemdaemon.c:328-400 | the body is parsed as `ParseRecord` says, rejections included |
| `Receiver.TokenizeHeaders` | src/telemdaemon.c:252-400 | the strtok loop takes the headers in order and replaces the machine id |
| `Receiver.StageRecord` | src/telemdaemon.c:277-326 | the text of the staged file |
| `RecordFile.ReadRecord` | src/iorecord.c:30-143 | the cursor-driven reader refines `ReadStaged` on every file |
| `RecordFile.ReadForTransmit` | src/spool.c:200-291 | the other reader refines `ReadSpooled` on every file |
| `RecordFile.StrchrLikeStrtok` | src/iorecord.c:30-42 | a line from fgets that is a header when it is cut in one of the two ways is cut the same by the other |
| `RecordFile.ReadersAgree` | src/spool.c:200-291 | every file is rejected by both readers or read by both as the same record |
| `RecordRoundTrip.SizeIsNotCfg` | src/telemdaemon.c:328-400 | an accepted header size is never taken for the config prefix |
| `RecordRoundTrip.ParseJoined` | src/telemdaemon.c:328-400 | the header text of a record is parsed back into its lines, but for the one named machine_id |
| `RecordRoundTrip.KeptIs` | src/telemdaemon.c:372-377 | of the fifteen headers of a record only number 3 is replaced, by `machine_id: ` and the machine id |
| `RecordRoundTrip.FrameSplits` | src/telemdaemon.c:328-400 | a received frame is split at the same places at which it was put together |
| `RecordRoundTrip.FrameIsReceived` | src/telemdaemon.c:114-204 | a frame that fits is received whole, whatever follows it on the stream |
| `RecordRoundTrip.ReceivedIff` | src/telemdaemon.c:114-204 | a body is received if and only if the stream starts with its size and that of the size field, 5 to 13500 bytes in all, and the whole body follows |
| `RecordRoundTrip.HeadersParseIff` | src/telemdaemon.c:366-385 | headers are accepted if and only if the lines that are not empty carry the fifteen names in order |
| `RecordRoundTrip.RejectedIff` | src/telemdaemon.c:366-385 | a record that divides into headers and payload is rejected if and only if a header is missing, misnamed or out of order |
| `Sender.PayloadIff` | src/telemetry.c:958-988 | a payload is accepted if and only if it has at most 8192 characters before a NUL, all printable or from tab to carriage return |
| `Sender.EventIdIff` | src/telemetry.c:1011-1033 | an event id is accepted if and only if it is 32 hexadecimal digits in lower case |
| `RecordRoundTrip.NoBodyIsNotRead` | src/iorecord.c:127-135 | a file that ends with its headers is read by neither reader |
| `RecordRoundTrip.FileIsReadIff` | src/iorecord.c:44-143 | a staged file is read back as it was if and only if every line of it is shorter than the line buffer |
| `RecordRoundTrip.EndToEnd` | src/telemetry.c:1202-1308 | from frame to file and back: the record is accepted with header number 3 replaced by `machine_id: ` and the machine id and the fourteen others as they were, both readers agree, and they return it with one newline after the payload if and only if all its lines are shorter than 4096 |
| `RecordRoundTrip.MakeFrame` | src/telemetry.c:1202-1308 | a record made of one-line values and given a payload fills the frame that `EndToEnd` starts from; there is none if the payload is rejected |
| `RecordRoundTrip.SendStageAndRead` | src/telemdaemon.c:114-400 | the methods of all components one after the other, for any pieces of the reads: both readers return the same: with header 3 replaced by `machine_id: ` and the machine id, the record that was made if and only if its lines fit; nothing if the payload is rejected |
| `RecordRoundTrip.RecordHasHeaderLines` | src/telemetry.c:797-946 | the headers made of one-line values are lines as `EndToEnd` takes them |
| `RecordRoundTrip.LongPathIsLost` | src/iorecord.c:69-92 | a frame with a config path of 4096 characters is received and accepted, and the staged record is returned by neither reader |
| `HashTable.InsertRefines` | src/nica/hashmap.c:122-169 | an insertion into a chain without a free row in its middle is an update of the map; rows stay in the bucket of their hash and keys unique |
| `HashTable.LookupRefines` | src/nica/hashmap.c:193-209 | a lookup that ignores the occupied flag finds what the map has, unless the key is NULL and a blank row comes first |
| `HashTable.NullStopsAtBlank` | src/nica/hashmap.c:193-209 | a blank row before the row of the NULL key: the lookup returns nothing |
| `HashTable.RemoveRefines` | src/nica/hashmap.c:224-249 | blanking a row deletes its key from the map |
| `HashTable.DenseIsSafe` | src/nica/hashmap.c:122-169 | without removals every put is safe, and the table stays without free rows inside |
| `HashTable.PutAfterRemoveIsUnsafe` | src/nica/hashmap.c:150-166 | two puts, a removal and a put: the last put is not safe |
| `HashTable.EntriesAreTheMap` | src/nica/hashmap.c:392-456 | the occupied rows, bucket by bucket, are the entries of the map, each once |
| `HashTable.MoveRow` | src/nica/hashmap.c:350-366 | in a resize the next occupied row holds a key that has not been moved yet, and moving it leaves exactly the rows behind it to move |
| `NcHashmap.InsertChain` | src/nica/hashmap.c:122-169 | the walk along the chain and the stores replace or append one row when that is safe, and otherwise close the chain into a cycle |
| `NcHashmap.InsertBucket` | src/nica/hashmap.c:122-169 | the same for the table: no other chain changes |
| `NcHashmap.FindEntry` | src/nica/hashmap.c:193-209 | the walk returns the first entry with the key, occupied or not |
| `NcHashmap.Removal` | src/nica/hashmap.c:224-249 | a removal is a deletion from the map when the lookup stops at the right row, and otherwise changes nothing |
| `NcHashmap.MoveEntries` | src/nica/hashmap.c:350-366 | the inner loop moves all entries of a chain into the new buckets, and counts them |
| `NcHashmap.Resized` | src/nica/hashmap.c:328-390 | four times the buckets, the same map, and no free row in any chain |
| `NcHashmap.NcHashmap.constructor` | src/nica/hashmap.c:76-103 | a new map is empty |
| `NcHashmap.NcHashmap.Put` | src/nica/hashmap.c:171-191 | the map is updated if it is resized first or the chain is safe; otherwise the chain is made a cycle; maps without removals are always safe |
| `NcHashmap.NcHashmap.Get` | src/nica/hashmap.c:211-222 | the value of the map, for every key that a lookup can reach |
| `NcHashmap.NcHashmap.Contains` | src/nica/hashmap.c:261-264 | whether the map has the key with a value that is not NULL |
| `NcHashmap.NcHashmap.Size` | src/nica/hashmap.c:320-326 | the number of entries of the map |
| `NcHashmap.NcHashmap.Remove` | src/nica/hashmap.c:224-249 | the key is deleted; when the lookup stops at a blank row only the count goes wrong |
| `NcHashmap.NcHashmap.Grow` | src/nica/hashmap.c:312-390 | a full map is resized, keeps its contents, and then has room for one more below seven tenths of its buckets |
| `NcHashmapIter.Iter.constructor` | src/nica/hashmap.c:392-403 | an iterator has all entries before it |
| `NcHashmapIter.Iter.Next` | src/nica/hashmap.c:405-456 | the next entry is the first of those left, and there is one as long as any is left |
| `Pstore.ParseIdRoundTrip` | src/probes/pstore_probe.c:183-188 | count and part are read back from a dump id |
| `Pstore.AddChunk` | src/probes/pstore_probe.c:221-255 | a chunk goes to the front of the list of its dump in the hash map |
| `Pstore.GroupChunks` | src/probes/pstore_probe.c:221-255 | the hash map holds, for each count, its chunks in reverse order of discovery |
| `Pstore.Reassemble` | src/probes/pstore_probe.c:259-325 | the three loops over a list give the dump of `Reassembled`: its text, that a part is missing, that the assertion fails, or that a part number 0 would be stored before the array |
| `Pstore.AbortsIff` | src/probes/pstore_probe.c:276 | the program aborts at a dump if and only if none of its parts is above 0 |
| `Pstore.OnePartAborts` | src/probes/pstore_probe.c:276 | it does at a dump of one part |
| `Pstore.SizeIsLength` | src/probes/pstore_probe.c:259-325 | the buffer of a dump with distinct parts is exactly filled |
| `Pstore.OrderIndependent` | src/probes/pstore_probe.c:221-325 | each dump is the same whatever the order of the files in the directory |
| `Pstore.CompleteDump` | src/probes/pstore_probe.c:259-325 | for two chunks or more with a content each, in order of falling part from the highest down to 0, the dump is their contents one after the other, in whatever order they were found |
| `Pstore.TwoPartDump` | src/probes/pstore_probe.c:315-320 | of two parts the higher comes first |
| `Pstore.MissingPart` | src/probes/pstore_probe.c:259-325 | a dump without one of its parts is not handled |
| `Pstore.DumpAll` | src/probes/pstore_probe.c:221-325 | each dump of the directory is handled once, as its chunks say, unless one of them ends the program |
| `IniFile.Strip` | src/nica/inifile.c:45-149 | the two stripping loops remove the blanks at both ends of any line and nothing else |
| `IniFile.ChewTerminated` | src/nica/inifile.c:95-134 | the counting loops refine `Chew` |
| `IniFile.ChewIsTrimIff` | src/nica/inifile.c:95-134 | a string is trimmed properly if and only if it has no leading blanks, or only blanks, or no trailing ones and a character other than a blank where the loop starts |
| `IniFile.ChewEatsAWord` | src/nica/inifile.c:115-127 | two blanks before two words: both are lost |
| `IniFile.StringUnescape` | src/nica/inifile.c:152-187 | the loop refines `Unescape` |
| `IniFile.HandleLine` | src/nica/inifile.c:239-345 | one line: its error in the order of the checks, or its effect on the table and the open section |
| `IniFile.ParseFull` | src/nica/inifile.c:211-385 | the line loop refines the recursive parser, with the number of the failing line |
| `IniMeaning.ParseMeans` | src/nica/inifile.c:211-385 | a parse fails at the first line that is wrong, with its error; otherwise the sections are those with a header and each key has the value last given to it in its section, over repeated sections too |
| `IniMeaning.MeaningIsOne` | src/nica/inifile.c:211-385 | this determines the result |
| `IniMeaning.LineErrors` | src/nica/inifile.c:255-320 | the error of a line by its characters, in the order of the checks |
| `IniMeaning.IgnoredMeansNothing` | src/nica/inifile.c:257-284 | blank lines and comments of either kind mean nothing |
| `IniMeaning.PairParts` | src/nica/inifile.c:286-315 | the key of an assignment is always trimmed properly; the value if and only if it is chewed well |
| `IniMeaning.UnescapeEscape` | src/nica/inifile.c:152-187 | a value without backslashes is read back from its escaped form |
| `IniMeaning.TableHasAFile` | src/nica/inifile.c:211-385 | a table with proper names, keys and values is written as a text from which the parser returns it |
| `IniMeaning.TableHasAFileIff` | src/nica/inifile.c:211-385 | exactly these tables are results of the parser |
| `JournalEntry.DeserializeJournalEntry` | src/journal/journal.c:94-158 | the offset loop refines `Deserialize` |
| `JournalEntry.DeserializesIff` | src/journal/journal.c:94-158 | a line is an entry if and only if it has four separators before its first NUL byte |
| `JournalEntry.DeserializeSerializeIff` | src/journal/journal.c:51-158 | an entry is read back from its line if and only if no field holds a separator or a NUL byte, whatever its timestamp |
| `Decimal.AtollFormat` | src/journal/journal.c:51-66 | a timestamp is read back from its decimal digits |
| `Journal.ValidateClassification` | src/util.c:173-206 | accepted are at most 122 characters in three parts of at most 41, 40 and 40 |
| `Journal.ValidIffThreeParts` | src/util.c:173-206 | a classification is valid if and only if it is three parts without slashes, of at most 41, 40 and 40 characters, and 122 in all |
| `Journal.PartsWithinLimitIff` | src/util.c:173-206 | all parts of an accepted classification are within the documented 40 characters if and only if the first is |
| `Journal.FirstPartMayBeLonger` | src/util.c:189-198 | a first part of 41 characters is accepted, a second one is not |
| `Journal.AppendCountsIff` | src/journal/journal.c:169-211 | appending a line makes one line more if and only if the file ended one and the line has no newline, or neither |
| `TelemJournal.GetRecordCount` | src/journal/journal.c:169-184 | the count of a file is the number of its lines |
| `TelemJournal.CopyToTmp` | src/journal/journal.c:297-328 | what is left of the file is copied line by line, each up to its first NUL byte |
| `Journal.CopyIsExactIff` | src/journal/journal.c:297-328 | the copy is exact if and only if there is no NUL byte |
| `Journal.NulEndsACopy` | src/journal/journal.c:297-328 | a line with a NUL byte loses what follows and its newline |
| `TelemJournal.TelemJournal.constructor` | src/journal/journal.c:331-374 | an opened journal counts the lines of its file |
| `TelemJournal.TelemJournal.NewJournalEntry` | src/journal/journal.c:546-611 | an accepted entry adds one line, from which record id, time, classification, event id and boot id are read back, and is counted and remembered; a rejected one changes nothing |
| `Journal.EntryIsAppended` | src/journal/journal.c:546-611 | the same on values: the old lines, and one line that deserializes to what was given |
| `Journal.RejectedEntry` | src/journal/journal.c:559-580 | nothing changes for an invalid classification or event id, or without a record id |
| `JournalRuns.HeaderValueIs` | src/util.c:49-69 | the value of a header is what follows its first colon, without one space; without a colon there is none |
| `JournalRuns.JournaledFields` | src/telempostdaemon.c:364-377 | the entry of a staged record has its classification from header 1 and its event id from header 14, and they are read back from its line |
| `TelemJournal.TelemJournal.SaveLocalCopy` | src/telempostdaemon.c:331-362 | the copy is stored under the last record id, if there is one |
| `TelemJournal.TelemJournal.SkipNLines` | src/journal/journal.c:252-288 | the callback gets the ids of the skipped lines that are entries, in order, and their copies are gone; fewer lines than asked for is an error |
| `TelemJournal.TelemJournal.PruneJournal` | src/journal/journal.c:614-676 | the new file, count and copies |
| `JournalRuns.PruneKeepsLast` | src/journal/journal.c:614-676 | pruning acts only above 150 records, calls the callback once for each dropped entry, in order, and leaves exactly the last 100 lines if and only if they hold no NUL byte |
| `JournalRuns.EntryCountsIff` | src/journal/journal.c:546-611 | an entry keeps the count right if and only if its classification has no newline |
| `JournalRuns.NewlineBreaksCount` | src/journal/journal.c:546-611 | a valid classification with a newline makes the count wrong |
| `JournalRuns.StagedHeaders` | src/iorecord.c:44-143 | headers of staged records hold no newline and no NUL byte |
| `JournalRuns.StageKeeps` | src/telempostdaemon.c:331-377 | journalling and retaining a staged record keeps the count right and every copy traceable |
| `JournalRuns.RetainedUnderItsIdIff` | src/telempostdaemon.c:331-377 | a record is retained under its own id if and only if it enters the journal; a rejected one overwrites the copy of the record before it |
| `JournalRuns.ValuelessReplacesCopy` | src/telempostdaemon.c:331-377 | a record whose headers have no values is read, does not enter the journal, overwrites the copy of the record before it and gets none of its own |
| `JournalRuns.RunKeeps` | src/journal/journal.c:546-676 | over every sequence of staged records and prunes, whatever the record files hold, the count is the number of lines, the journal stays free of NUL bytes, the last id is that of the last line, and the ids of the retained copies are ids of the journal |
| `JournalRuns.KeptAtStart` | src/telempostdaemon.c:181-205 | this holds of an opened journal of whole lines without NUL bytes |
| `Base64.EncodeFile` | src/nica/b64enc.c:80-129 | a file that is not empty succeeds exactly when its encoding and one byte are less than the buffer size; then the buffer holds the encoding and a terminator, and nothing behind it is touched |
| `Base64.WritePadding` | src/nica/b64enc.c:63-74 | up to two padding characters and a terminator |
| `Base64.DecodeEncoding` | src/nica/b64enc.c:46-129 | decoding the encoding without its newlines gives the input back, for every input |
| `Base64.EncodingLinesFit` | src/nica/b64enc.c:104-112 | every line has exactly 76 characters, but the last, which has no more |
| `Base64.PaddingAtEnd` | src/nica/b64enc.c:63-129 | a character is padding if and only if it is one of the last that the last group lacks: all of it is there, at the very end and nowhere else |
| `Oops.SkipOver` | src/probes/oops_parser.c:169-197 | the loops skip a bracketed prefix, or everything if it is not closed |
| `Oops.StrippedOfBoth` | src/probes/oops_parser.c:367-369 | log level, timestamp and one space are taken off a line, in this order, and any text behind them is left |
| `Oops.StrippedOfStamp` | src/probes/oops_parser.c:367-369 | so it is without a log level |
| `Oops.StrippedOfLevel` | src/probes/oops_parser.c:367-369 | and with a log level only, when neither bracket nor space follows it |
| `Oops.StrippedOfNothing` | src/probes/oops_parser.c:367-369 | a line with neither loses one space at most |
| `Oops.StrippedUnclosed` | src/probes/oops_parser.c:169-197 | a bracket that is not closed takes the whole line |
| `Oops.FindPattern` | src/probes/oops_parser.c:371-391 | the first pattern of the table that the line matches |
| `Oops.FirstMatch` | src/probes/oops_parser.c:371-391 | a pattern is found if and only if one matches, and none before it does |
| `Oops.OopsParser.EndFound` | src/probes/oops_parser.c:393-426 | the end of a message and the stack dump flag, case by case |
| `Oops.GoesOnIff` | src/probes/oops_parser.c:393-424 | a message goes on if and only if it is not full, the line does not hold the end of a trace, is a stack frame in a stack dump, and does not announce another message unless the message may hold one |
| `Oops.AlsaMayHoldAnother` | src/probes/oops_parser.c:420-424 | the ALSA pattern may hold another message, a plain pattern never |
| `Oops.DumpBeginsIff` | src/probes/oops_parser.c:400-405 | a stack dump begins if and only if the line begins with `Call Trace:` |
| `Oops.StartsIff` | src/probes/oops_parser.c:239-246 | a line starts a message if and only if a plain pattern is its beginning or a regular expression matches it |
| `Oops.OopsParser.ParseSingleLine` | src/probes/oops_parser.c:360-439 | one line: the lines kept in the table of 100, and the message handed over if it ends |
| `OopsMessages.SpansAreMessages` | src/probes/oops_parser.c:360-439 | the runs of lines are messages: 1 to 100 lines, the first matches a pattern, the line after the last is the first to end it |
| `OopsMessages.SpansAreInOrder` | src/probes/oops_parser.c:360-439 | they are in order and apart, lines that end a message belong to none, and no line between them could have begun one |
| `OopsMessages.IdleEmits` | src/probes/oops_parser.c:360-439 | from any point between messages the machine hands over exactly the messages of the rest of the log |
| `OopsMessages.MessagesOfLog` | src/probes/oops_parser.c:360-439 | all of this for a whole log |
| `KlogScanner.JoinMessage` | src/probes/klog_scanner.c:102-131 | the buffer measured in one pass is filled exactly by the other, with the lines and their newlines |
| `KlogScanner.HandleEntireOops` | src/probes/oops_parser.c:269-324 | the loop that cuts a buffer into lines refines `Entire` |
| `KlogScanner.JoinedIsEntire` | src/probes/oops_parser.c:269-324 | a message comes back from its joined lines with the same lines and the same pattern |
| `KlogScanner.SplitBufByLine` | src/probes/klog_scanner.c:71-100 | the parser is fed the whole lines of a buffer up to the one that ends a message |
| `KlogScanner.FullLinesAre` | src/probes/klog_scanner.c:71-100 | the whole lines of a buffer and an unfinished one are the buffer |
| `KlogScanner.EntireIff` | src/probes/oops_parser.c:269-302 | a buffer is a message if and only if it holds a whole line and its first one, free of NUL bytes, starts a message |
| `KlogScanner.ScannedIsEmitted` | src/probes/klog_scanner.c:63-100 | the messages of any sequence of buffers are those of the lines that are parsed |
| `KlogScanner.ScanIsFaithful` | src/probes/klog_scanner.c:63-156 | over every sequence of buffers each message handed over is a run of parsed lines as above, and joining and splitting it again changes nothing |
| `PollClients.ProbeDaemon.constructor` | src/telemdaemon.c:41-49 | no descriptors and no clients |
| `PollClients.ProbeDaemon.AddPollfd` | src/telemdaemon.c:402-429 | an entry is added at the end, and the allocation covers it |
| `PollClients.ProbeDaemon.DelPollfd` | src/telemdaemon.c:431-441 | an entry is taken out and those behind it move up |
| `PollClients.ProbeDaemon.LookupClient` | src/probe.c:297-304 | the client with the descriptor, if there is one |
| `PollClients.ProbeDaemon.RemoveClient` | src/telemdaemon.c:66-78 | one client with the descriptor goes, and the others stay in their order |
| `PollClients.ProbeDaemon.TerminateClient` | src/telemdaemon.c:86-95 | entry and client go together |
| `PollClients.ProbeDaemon.HandleEvents` | src/probe.c:231-308 | the inner loop refines `Turns` and keeps the pairing |
| `PollClients.AcceptKeeps` | src/probe.c:262-294 | an accepted connection keeps entries and clients paired, and is polled for data and urgent data |
| `PollClients.TerminateKeeps` | src/telemdaemon.c:86-95 | a terminated client keeps them paired |
| `PollClients.LookupSucceeds` | src/probe.c:295-305 | the lookup of a polled client never fails |
| `PollClients.ClientsArePolled` | src/probe.c:231-308 | every client is polled |
| `PollClients.TurnsKeep` | src/probe.c:231-308 | a whole round keeps them paired, though the entry behind a terminated one is passed over |
| `PollClients.QuietStays` | src/probe.c:231-308 | a client without an event is still there after a round |
| `PollClients.ReadyGoes` | src/probe.c:231-308 | a client with an event whose neighbour before it has none is handled and gone after a round, when no signal is pending and a waiting connection can be accepted |
| `PollClients.RunKeepsPairing` | src/probe.c:224-327 | on every run of rounds polled entries and clients correspond one to one |
| `PollClients.PairedAtStart` | src/probe.c:137-205 | they do at the start |

## Left out

- libcurl, the config override around a post, signals, inotify, systemd sockets and command lines: foreign calls; a post is a boolean input, time is a non-decreasing input.
- Failing allocations, exit paths and the order of freeing: allocation succeeds in the model.
- The journal and the delivery of records are two models: what the journal does has no bearing on delivery in the code.
- Files of the spool directory are not overwritten while they are there: the probe daemon makes names that are free.
- Pstore.Reassemble: what the program does after a store before its array is not modelled.
- Base64.EncodeFile: the buffer has four bytes more than the size it is given, because the code stores a group before it checks that there is space for it.
- Failing file operations: opening, renaming, unlinking and writing succeed, except where a reader finds a file unreadable.
- The minute is read once for each delivery; the code reads it twice.
- Collecting header values from /proc, /sys and os-release: header values are given strings.
- The getters and bounds of src/configuration.c: they are preconditions of the model (windows of 0 to 59 minutes).
- Registers, stack frames and the text of an oops payload (src/probes/oops_parser.c:441 and after): formatting.
- The filters and the output of print_journal, and handle_crash_dump of the pstore probe.
- The source's own table of oops patterns: the theorems hold for every table and every regular expression matcher.
- Receiver.HandleClient: a first read of fewer than four bytes of the size is not modelled, because the code does not treat it specially.
- Sender.TelemRecord.FillFrame: a record without a payload is not modelled, because its size then has no value in the code.
- Sender.WriteSocket: a write that returns 0 is not modelled, because the code would repeat it for ever.
- Journal.ValidateClassification: the empty classification is not modelled, because the loop of the code then reads past the end of the string; the journal model rejects it.
- IniFile.ParseFull: files with NUL bytes are not modelled, because the code measures and copies such lines differently; the section and key maps are values, not the hash map of the code, whose put is an update as nothing is removed.
- Decimal.AtollFormat: numbers are unbounded; beyond 64 bits the C function is undefined.
- KlogScanner.HandleEntireOops: buffers of more than 100 lines are not modelled, because the message of the code has room for 100.
- TelemJournal.TelemJournal.PruneJournal: the journal file and the directory of copies are fields of the model; a failing rename or reopen is not modelled.
- PollClients.ProbeDaemon.HandleEvents: reloading the configuration on SIGHUP is not modelled; it touches neither descriptors nor clients.
- PostLimits.WindowsWithinLimits: limiting is on; posts of spool passes are not limited by the code and not counted.
