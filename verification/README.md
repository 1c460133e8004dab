# QuickTrace, modelled and proved

QuickTrace lets a program write trace messages into ten byte rings of a memory-mapped file, one per
trace level, while `qttail` and `qtcat` read the same bytes without any lock. Writer and reader share
only a layout: a 4-byte tail word, then records of `tsc(8) id(4) parameters length(1)`, a zero tsc
after the newest record, and a 256-byte trailer of 0xff that absorbs the record that spills over the
end. Behind the rings stands a dictionary that describes each message once.

This project models the writer, the readers and the dictionary, and proves what one part promises to
the other: that the reader gets back from raw bytes what the writer was asked to write.

Check everything with `dafny verify dfyconfig.toml`.

## Modules

- `Wrappers`, `Bytes`, `Codes`, `CppTypes`, `Records`: memory images, little-endian numbers, parameter
  codes with their encoding and decoded lengths, the C++ types that use them, the record layout.
- `RingState`, `RingWriter`: the writer, as operations on values with the invariant that every run
  keeps, and as the class `RingBuf` over a shared byte array, each method tied to its operation.
- `RingReader`, `Recovery`, `BlindSpot`: the reader of one ring; what qtcat recovers after any run.
- `Tailing`, `TailStart`, `GiveUp`: writer and tailing reader in turns, over any number of wraps; where
  the reader starts; when it gives a message up.
- `Race`, `TornRecord`, `Stores`: the writer split into single stores, the reader between any two of them;
  the stores add up to the operations of `RingState`.
- `Monotone`, `Rounds`: arbitrary, changing bytes: what `next` accepts, the output order of one ring, and the
  rounds of selection over several rings.
- `Geometry`, `TraceFile`, `LogFile`: the ten regions of a file; containment; all ten rings in one
  memory, as a value and as objects that share their counters.
- `Merging`, `CatFile`, `FileQueue`, `CatMany`, `CatFiles`: the merge of ten rings and of many files.
- `TailStates`, `Reopening`, `Watching`: the states of a tailed file under directory events, and when a
  re-created file is tailed again.
- `Templates`, `Formatting`, `FormatterInit`, `KeyStrings`, `Rendering`, `Pipeline`: from a `{}` template and
  a key to formatters that consume what the encoders produced, and what they show.
- `Descriptors`: the dictionary, written and read back.
- `SelfTimes`: self-profiling timers. `MsgIds`: message ids across threads.

Methods that change state are proved equal to functions on values; the theorems are about those
functions and the runs they make. An increasing clock is part of the hypotheses where the source
relies on one: the timestamps of a ring's messages increase, are above zero and below UINT64_MAX.

## What the proofs found

Where the code does not do what it is for, the model follows the code, and the exact condition is
proved.

- **Blind spot.** `rewind` compares `p > splitPoint` on purpose (qttail.cpp:381-383), and its comment
  expects to miss one message. If the record that starts exactly at `ptr_ + 8` is the last one of the
  previous lap, the cursor stays on the tail and qtcat prints nothing at all for that ring, the whole
  current lap included. `BlindSpot.BlindRun` is a run of seven messages that does this;
  `Recovery.CatAfterRun` shows that the current lap is recovered if and only if this case is absent.
- **Giving up.** When a disabled message causes the wrap while the tailing reader stands at the last
  message of the lap, that message's follower is the old record at the ring's start, and every poll
  rejects it. If nothing is written for 1024 polls, the reader resets and the message is lost:
  `GiveUp.GiveUpRun` is a run of five messages that prints four. `Tailing.TailsExactly` and
  `Tailing.PrefixIff` say exactly what is printed in all runs; without disabled messages nothing is ever
  given up (`Tailing.EnabledNeverGivesUp`).
- **Opening a file again.** In the same state, wrapped with nothing written since, `rewind` in tailing mode
  takes the old first record for corruption and fails, and qttail exits (qttail.cpp:724-727). In every other
  state it succeeds (`TailStart.TailRewind`).
- **Half-written records.** In a ring whose records all have one size, what `next` accepts between two
  stores of the writer is a complete record if and only if the bytes at the cursor decode to that size
  (`Race.AcceptedIff`). Fixed-width parameters in the messages of that ring guarantee it, whatever the other
  rings of the file hold (`Race.RaceFreedom`); with strings or optionals of the same total size it can fail,
  on the smallest ring that exists (`TornRecord.TornAccepted`, `TornRecord.TornOptional`).
- **Record size.** A statement keeps to its ring's region exactly when its record and the zero tsc behind it
  end before the trailer does, which holds at every position for records of at most 249 bytes and no others
  (`TraceFile.ContainedIff`, `TraceFile.BoundIsTight`). The 240-character limit of `putLongString`
  (QuickTrace.cpp:882-886) makes records of 254 bytes, which leave the region when they start in the last
  five usable bytes (`TraceFile.LongStringEscapes`); elsewhere the bound is a precondition of the writer
  model.
- **Early clocks.** `tailMany` reads the clock before it looks for messages (qttail.cpp:1193-1214), so a message
  written in between is selected and then rejected. The model has such polls: a message fails at most twice
  for this reason, and none is lost by it (`Tailing.TailsExactly`, `Tailing.EnabledNeverGivesUp`).
- **Large specs.** `resize` does not limit the sizes (QuickTrace.cpp:561), and ring offsets are signed 32-bit
  numbers: the constructor is modelled for specs below 2 GiB, which every limited spec is
  (`LogFile.LimitedSpecOk`).
- **Right after a wrap**, `fastforward` stops one message before the end: the next message written
  makes that older message appear first.
- **Wall clock.** A message with the two time stamps and no other parameter has the key `q,q`, which
  the `"q,q,"` test does not match, so the two numbers are matched against the message's own
  specifications (`KeyStrings.WallClockPrefix`).
- **Percent signs.** `msgDesc` does not double a percent sign of the template, so one in front of a letter, a
  flag or a digit may be read as a specification: `{}% done` is shown as a message with a wrong number of
  parameters (`Pipeline.PercentMisread`). Templates whose percent signs cannot go on a specification are shown
  as meant (`Pipeline.DescriptorShown`).
- **Descriptors.** A file name that is empty or contains white space does not survive the dictionary;
  every other descriptor does (`Descriptors.RoundTripIff`). A message with empty text is parsed but
  treated as unknown by `Messages::get`.

The comment at QuickTrace.cpp:75 gives the key as `ddd`; in the code the codes are separated by commas
and have other names. The model follows the code.

## Model

| member | source | states |
|---|---|---|
| Codes.ParamRoundTrip | MessageFormatter.cpp:176-297 | for arguments given with their codes: decoding what the encoders wrote, with the key of the arguments, consumes exactly the bytes written, at any place in memory, and returns the same values: strings cut at their first NUL and at the maximum length, empty and non-empty optionals included |
| CppTypes.TablesAgree | QuickTraceFormatString.h:34-57 | for every C++ argument type and both data models, the code that the `formatString` overload names is supported, shows a value as what the type is (number, character, bool, float, double, string), and reads exactly the bytes that the `put` overload pushes, which hold every value of the type |
| CppTypes.TypedRoundTrip | QuickTraceRingBuf.h:111-138 | the round trip for arguments of C++ types and optionals of them: what the `put` overloads write is decoded, by the codes whose key text the `formatString` overloads build, to the same values with the kind of their C++ types, consuming exactly the bytes written |
| Codes.EncodedFits | MessageFormatter.cpp:375-386 | the parameter area of any argument list has exactly the length that the key predicts |
| Codes.LengthLocal | MessageFormatter.cpp:375-386 | the decoded length depends only on the bytes it spans, so it is the same in any memory image that agrees there |
| Codes.ParseCodeText | MessageFormatter.cpp:483-498 | the text of every supported code, `OPT` ones included, selects that code again |
| Codes.LetterTables | MessageFormatter.cpp:716-750 | the tables of formatters and of lengths have the same letters, with the same numbers of bytes, which are those of the codes; exactly the letters shown as numbers have a hexadecimal formatter |
| Codes.CutString | QuickTrace.cpp:862-874 | the characters kept are the longest prefix without NUL that is within the limit |
| Records.ReadBack | QuickTrace.cpp:760-794 | timestamp, id, decoded length, length byte and parameters read at a record are those that were written |
| Records.IntactLengthByte | qttail.cpp:385-389 | the length byte of a record survives as long as its last byte does, even when its start is overwritten |
| RingState.BufIsInv | QuickTrace.cpp:727-738 | `bufIs` establishes the ring invariant with an empty history, whatever the region held before |
| RingState.WrapInv | QuickTrace.cpp:745-754 | `maybeWrap` keeps the ring invariant: the current lap becomes the previous one, its end is in the tail word, and the 0xff bytes behind it are back |
| RingState.WriteInv | QuickTrace.cpp:760-794 | one enabled message keeps the ring invariant: the current lap grows by the record, a zero tsc follows it, and of the previous lap everything from eight bytes after the write position on is intact |
| RingState.StepInv | QuickTrace.cpp:760-794 | every trace statement, enabled or disabled, keeps the ring invariant and extends the history by its record or by nothing |
| RingState.RunInv | QuickTrace.cpp:727-794 | over any run of statements the invariant holds and the three laps of the history, concatenated, are exactly the enabled messages in order |
| RingState.FullLap | QuickTrace.cpp:719-725 | a lap that reached the end of the usable area holds at least two records |
| RingWriter.RingBuf.BufIs | QuickTrace.cpp:727-738 | in place, the new memory and positions are those of the value-level `BufIs`, about which the invariant and containment are proved |
| RingWriter.RingBuf.DoWrap | QuickTrace.cpp:745-754 | in place, the new state is the value-level `DoWrap` |
| RingWriter.RingBuf.MaybeWrap | QuickTrace.cpp:719-725 | in place, the new state is the value-level `MaybeWrap` |
| RingWriter.RingBuf.StartMsg | QuickTrace.cpp:760-785 | wraps if needed, writes tsc and id unless the off bit is set, and updates only the counter of the id |
| RingWriter.RingBuf.Push | QuickTraceRingBuf.h:88-92 | an enabled message gets the bytes appended at the write position, nothing else changes |
| RingWriter.RingBuf.PutWithMaxLen | QuickTrace.cpp:862-874 | appends a length byte and the cut string |
| RingWriter.RingBuf.PutArg | QuickTraceOptFormatter.h:38-47 | appends exactly the encoding of the argument: a flag byte in front of an optional, the value unless it is empty |
| RingWriter.RingBuf.EndMsg | QuickTrace.cpp:787-794 | an enabled message gets its length byte and a zero tsc; a disabled one changes nothing |
| RingWriter.RingBuf.Trace | QuickTrace.h:552-557 | a whole trace statement (start, every `<<`, end) takes the ring through exactly one step of the run that the ring lemmas are about |
| RingWriter.UpdateLastTsc | QuickTrace.h:475-487 | the off bit is kept and the other 31 bits are bits 28 to 58 of the tsc |
| RingWriter.HitsCounted | QuickTrace.cpp:780-783 | after any statements a counter has counted them modulo 2^32, has kept its off bit, and has the time of the last one |
| RingWriter.PiecesMakeRecord | QuickTrace.cpp:760-794 | head, parameters, length byte and zero tsc written one after the other are one record of the layout |
| RingReader.RingBuffer.Print | qttail.cpp:234-321 | on the object the effect and outcome of `dump` are the value-level `Dump`; what it prints has the selected tsc, and unless it prints, cursor and last tsc stay |
| RingReader.RingBuffer.ResetCursor | qttail.cpp:333-342 | `reset` refuses at the start of the ring; otherwise the cursor goes there and `lastTsc_` is bumped |
| RingReader.RingBuffer.SkipToEnd | qttail.cpp:324-330 | the `fastforward` loop ends and equals the recursive skip |
| RingReader.RingBuffer.WalkForward | qttail.cpp:356-371 | the forward loop of `rewind` ends and equals its recursive form, corruption included |
| RingReader.RingBuffer.WalkBack | qttail.cpp:385-389 | the backward loop of `rewind` ends and equals its recursive form |
| RingReader.RingBuffer.GoToFirst | qttail.cpp:345-402 | `rewind` on the object equals the value-level `Rewind`; false exactly when that finds corruption |
| Rounds.PrintsSelected | qttail.cpp:239-247 | for all memory, clocks and selections: what `dump` prints has the tsc that was selected, it asks for another selection if and only if `next` finds another one, and unless it prints, cursor and last tsc stay |
| Rounds.LeastIs | qttail.cpp:760-770 | a pass of the scan finds the least tsc that any ring shows, in the lowest ring that shows it |
| Rounds.TwoPassesIff | qttail.cpp:757-781 | from the start of a scan, whatever happens to memory in between, two passes select a message if and only if they find the same least tsc |
| Rounds.StaleSelection | qttail.cpp:239-247 | when the selected ring shows another message by the time of the dump, nothing is printed, every reader stays where it is, and all rings are scanned afresh |
| Rounds.PrintedWasLeast | qttail.cpp:738-885 | over whole runs on several rings, with memory changing arbitrarily between any two reads: every line printed is of the message that was least among all enabled rings in the pass that selected it |
| Rounds.OutputOrdered | qttail.cpp:738-885 | over those runs the output of all rings together is in tsc order as long as no pass sees a message older than one selected before |
| Recovery.NextAtRecord | qttail.cpp:428-511 | at a complete record with a valid tsc and an acceptable follower `next` returns that record, in both modes |
| Recovery.PendingLap | qttail.cpp:234-321 | repeated `dump` from a record of a readable lap prints the rest of that lap, then whatever is pending after it |
| Recovery.ForwardFindsEnd | qttail.cpp:356-372 | the forward half of `rewind` stops exactly behind the last record of the lap that starts at the ring start |
| Recovery.BackwardWalk | qttail.cpp:385-389 | started at a boundary of the previous lap, the backward walk visits its boundaries in reverse and leaves the cursor at the lowest one above the split point |
| Recovery.BackwardReadsAbove | qttail.cpp:385-389 | the walk reads no byte below the split point: images that agree from there on give the same walk |
| Recovery.SplitCursorIs | qttail.cpp:372-396 | where `rewind` leaves the cursor in every case: the lowest boundary above the split point, the ring start, or, in the blind case, the tail |
| Recovery.CatRecovery | qttail.cpp:345-402 | on every ring that a run leaves behind `rewind` succeeds, and repeated `dump` prints exactly `Recovered` |
| Recovery.RecoveredIsSuffix | qttail.cpp:345-402 | what is printed is a suffix of the messages written, and it includes the current lap if and only if the last old record does not start at `ptr_ + 8` |
| Recovery.RecoveredOldOnes | qttail.cpp:381-389 | outside the blind case an old record is recovered if and only if it starts strictly above `ptr_ + 8` (all of them right after a wrap) |
| Recovery.CatAfterRun | qttail.cpp:345-402 | the cat recovery theorem from an arbitrary memory: any run of enabled and disabled statements, then `rewind` and `dump`, yields a suffix of the enabled messages, with the whole current lap if and only if not blind |
| BlindSpot.BlindRun | qttail.cpp:372-396 | seven ordinary messages after which every hypothesis of the recovery theorem holds, three messages are in the current lap, and qtcat prints nothing for the ring |
| Tailing.PollStep | qttail.cpp:234-321 | what one poll of a reader in step does, in every state and at every clock value: nothing new; the next message, printed if and only if the reader is not stuck, the message is older than the clock and the one behind it not later; otherwise it counts towards the corruption threshold, at which it fails |
| Tailing.WriterStep | QuickTrace.cpp:760-794 | any statement that does not overrun the reader keeps its place valid, wraps included |
| Tailing.TailsExactly | qttail.cpp:234-342 | over any interleaving of complete statements, enabled or disabled, without overrun, and polls whose clock is read at any time since the poll before, the printed messages are at all times those written up to the reader's place without exactly the ones at which a poll gave up |
| Tailing.PrefixIff | qttail.cpp:234-342 | the output is a prefix of what was written if and only if nothing was given up or nothing has been printed since the first give-up |
| Tailing.LossFree | qttail.cpp:234-321 | in all those runs, as long as no poll gives up, the printed messages are a prefix of the written ones |
| Tailing.EnabledNeverGivesUp | qttail.cpp:316-320 | without disabled statements no poll ever gives up, also when clocks are read before the newest messages are written, so tailing is loss-free without that hypothesis |
| Tailing.GivingUpLoses | qttail.cpp:871-879 | once a poll gives up, then after any guarded actions the output is a prefix of what was written if and only if nothing more has been printed |
| GiveUp.WrappedGivesUp | qttail.cpp:502-509 | on every ring that a disabled statement has wrapped, a reader before the last message gives up at the 1025th poll unless something is written before |
| GiveUp.GiveUpRun | qttail.cpp:871-879 | a run of the smallest ring from its creation, four messages, a disabled statement, 1025 polls and one more message, whose output is messages 1, 2, 3 and 5 |
| TailStart.FastForwardInStep | qttail.cpp:323-330 | starting to tail an existing file puts the reader in step with the writer, with nothing left to print except, right after a wrap, the last message |
| TailStart.TailRewind | qttail.cpp:345-402 | in tailing mode `rewind` fails if and only if the ring has wrapped and nothing was written since; otherwise it leaves the reader exactly where qtcat mode does |
| TailStart.RewindInStep | qttail.cpp:720-729 | where it succeeds and the ring is not blind, the reader is in step with the writer at the first recovered message |
| Tailing.FreshInStep | qttail.cpp:223-231 | a new reader on a new ring is in step |
| Monotone.FoundNotOlder | qttail.cpp:529-535 | on any bytes, a message that `next` lets through is not older than `lastTsc_` and older than the clock |
| Monotone.AcceptsIff | qttail.cpp:428-511 | on arbitrary bytes, exactly what `next` accepts: tsc, id, decoded length and length byte, and what stands behind the message in the usable area and in the trailer |
| Monotone.PrintedInOrder | qttail.cpp:234-342 | for arbitrary memory at every call, the timestamps printed never decrease, and after each `reset` they are strictly greater than all printed before |
| Race.BufIsZeroed | QuickTrace.cpp:622-645 | `bufIs` on zeroed memory, other rings around it or not, gives the region that the race model starts from |
| Race.FreshInv | QuickTrace.cpp:727-738 | a new ring, in memory that is arbitrary outside its region, satisfies the invariant of the stores |
| Race.GoInv | QuickTrace.cpp:745-794 | every single store (tsc, id, the parameter bytes in any order, length byte, zero tsc, 0xff bytes, tail word) keeps the invariant of the slots |
| Race.TornRejected | qttail.cpp:464-509 | inside a message either the length byte is missing or the tsc behind it is older, so the checks of `next` reject it |
| Race.AcceptedIsComplete | qttail.cpp:428-511 | a message of the ring's record size that `next` accepts at a record boundary is completely written, with the tsc and id of that record, for any reader, lapped or not |
| Race.AcceptedIff | qttail.cpp:428-511 | what `next` accepts at a record boundary is a complete record if and only if the id and bytes at the cursor decode to the ring's record size |
| Race.FixedWidthSafety | qttail.cpp:428-511 | when the ids in the ring are those of messages with fixed-width parameters of the ring's record size, whatever else the file registers, every accepted message is a complete record, with exactly its tsc, id and parameters |
| Race.RaceFreedom | qttail.cpp:234-342 | over whole runs from a new ring to which only messages with fixed-width parameters of one record size are written, in a file that may register any others, with the stores of the writer and the calls of `dump` and `reset` in any order, in every lap and for a reader that is lapped, everything printed is a completely written record |
| Race.GoIds | QuickTrace.cpp:760-794 | every single store keeps: the id in memory at each record boundary is that of a message of this ring or is registered for none |
| Stores.StoresRefineRun | QuickTrace.cpp:727-794 | from a new ring, over any run of single stores: whenever the writer is between two statements, memory and write position are exactly those that the statements it executed leave in the value-level run |
| Stores.MessageIsWriteMsg | QuickTrace.cpp:760-794 | all stores of one message, its parameter bytes in any order, leave what the value-level `WriteMsg` does |
| Stores.WrapIsDoWrap | QuickTrace.cpp:745-754 | the two stores of a wrap leave what the value-level `DoWrap` does |
| TornRecord.TornAccepted | qttail.cpp:428-511 | with a string the condition can fail: on the smallest ring, 37 records of 21 bytes and the head of a 38th make `next` accept a message with a 2-character string that nobody wrote |
| TornRecord.TornOptional | qttail.cpp:428-511 | with an optional it can fail too: 35 records of 22 bytes and the head of a 36th make `next` accept a message with an empty optional that nobody wrote |
| Geometry.AddAndLimitSizes | QuickTrace.cpp:446-459 | in place, sizes from 1 to 16384 are kept, zero becomes 1, larger ones are cut only under the limit; the result is the sum modulo 2^32, and within the limit the sum itself |
| Geometry.AddLevelSizes | QuickTrace.cpp:461-467 | the sum of the sizes before a level, modulo 2^32 |
| Geometry.Disjoint | QuickTrace.cpp:636-645 | rings of different levels do not overlap and all lie inside the mapped area |
| Geometry.Tiling | QuickTrace.cpp:636-645 | every byte after the counters and before the end of the mapped area is in exactly one ring |
| Geometry.ReaderBases | qttail.cpp:706-712 | the reader's ring positions are the sums of the sizes from the header in bytes, each reduced modulo 2^32 |
| Geometry.ReaderAgreesIff | qttail.cpp:706-712 | the reader looks for a ring where the writer put it if and only if the sizes in bytes of all rings before it are below 2^32 |
| LogFile.LimitedSpecOk | QuickTrace.cpp:517-537 | every spec of ten levels within the limit, scaled down or not, has ring offsets that fit an `int`, as the constructor needs |
| TraceFile.StepContained | QuickTrace.cpp:719-794 | a statement with a record of at most 249 bytes, its zero tsc and its 0xff restore included, changes no byte outside its own ring |
| TraceFile.BufIsContained | QuickTrace.cpp:727-738 | `bufIs` changes no byte outside the region |
| TraceFile.ContainedIff | QuickTrace.cpp:760-794 | a statement with a record of any size keeps to its region on every memory if and only if its record and the zero tsc end before the trailer does |
| TraceFile.BoundIsTight | QuickTrace.cpp:719-725 | that holds at every position of the usable area if and only if the record has at most 249 bytes |
| TraceFile.LongStringEscapes | QuickTrace.cpp:881-886 | `putLongString` with a string at its limit makes a record of 254 bytes, which stays inside if and only if it starts before the last five bytes of the usable area |
| TraceFile.RingKept | QuickTrace.cpp:636-645 | a ring's invariant depends only on the bytes of its own region |
| TraceFile.InitInv | QuickTrace.cpp:636-645 | the constructor loop leaves every ring of a new file in its invariant, empty |
| LogFile.OpenLog | QuickTrace.cpp:636-645 | the loop over the `RingBuf` objects gives each its region, all of them the same memory and the same counters, and leaves the memory that `InitInv` is about |
| LogFile.LogFile.Trace | QuickTrace.h:552-557 | a statement at one level is one step of the whole file and one hit of the counter that all levels share |
| TraceFile.FileStepInv | QuickTrace.cpp:760-794 | a statement at one level keeps the invariants of all rings and extends one history |
| TraceFile.FileRun | QuickTrace.cpp:760-794 | over whole runs of statements at any levels all ring invariants hold and each level's history is exactly the enabled messages at that level |
| Merging.PickIsLeast | qttail.cpp:760-770 | the scan picks a least pending tsc, ties going to the lower level |
| Merging.MergeKeepsEach | qttail.cpp:838-885 | the merge restricted to any ring is that ring's sequence: nothing lost, added or reordered |
| Merging.MergeSorted | qttail.cpp:838-885 | sorted sequences merge to a sorted output |
| CatFile.Tail.NextTsc | qttail.cpp:738-794 | the repeated scan ends after two equal rounds and selects the first of the least pending messages; an existing selection is kept |
| CatFile.Tail.DumpSelected | qttail.cpp:849-885 | `tailBuffer` with any memory and in both modes: only the selected message is printed, the selection is kept if and only if nothing was there yet (or qtcat gives up), and tailing resets the ring when `dump` throws |
| CatFile.Tail.TailBuffer | qttail.cpp:849-885 | the selected message is printed, taken from its ring only, and the selection is cleared |
| CatFile.Tail.CatOne | qttail.cpp:1013-1017 | `catOne` terminates and outputs exactly the merge of what the rings deliver |
| CatFile.Cat | qttail.cpp:706-730 | `initialize` with `rewind` on every enabled level, then `catOne`, on a file that a run left behind, outputs the merge of the recovered suffixes of the enabled rings |
| CatFile.CatMeaning | qttail.cpp:651-885 | that output is sorted by tsc and for each enabled level is a suffix of what was written there, with the whole current lap if and only if the ring is not blind; disabled levels print nothing |
| FileQueue.InsertOrdered | qttail.cpp:1073-1075 | inserting into the ordered map keeps key order |
| FileQueue.RequeueKeeps | qttail.cpp:1027-1058 | erase, re-queue and in-place key update all keep: entries after the first in key order, the first entry's tsc least, even among equal tscs |
| CatMany.CatControl.PopulateQueue | qttail.cpp:1063-1079 | every file with a message gets one entry with its next tsc and ring, by tsc and with equal ones in the order of the files, and exactly the others are erased from the list |
| CatMany.EntriesListed | qttail.cpp:1063-1079 | every entry of the queue is of a file that is still in the list |
| CatMany.RoundOk | qttail.cpp:1021-1059 | one round keeps: every key's tsc is its file's next tsc, every unfinished file has one entry |
| CatMany.OutStep | qttail.cpp:1021-1059 | one round keeps: the output is in order, not later than anything queued, and with the remaining messages complete for every file |
| CatMany.CatControl.OneRound | qttail.cpp:1022-1058 | one loop body prints the first entry's message and leaves the files and the queue as specified |
| CatMany.CatControl.CatMany | qttail.cpp:1019-1061 | `catMany` terminates; its output is in non-decreasing tsc order and restricted to any file is exactly that file's own output |
| CatFiles.Cat | qttail.cpp:990-1061 | qtcat on several files that runs left behind: opening each and `catMany` outputs, in tsc order, exactly what qtcat prints for each file alone |
| CatFiles.CatMeaning | qttail.cpp:990-1061 | of every level of every file that output shows a suffix of what was written there, with the whole current lap if and only if the ring is not blind, and nothing of disabled levels |
| TailStates.DoInv | qttail.cpp:738-836 | every event, poll and consumption keeps the invariant of the file states |
| TailStates.StateMachine | qttail.cpp:651-836 | over every interleaving no assert of `statusIs` fails, a pending selection implies a mapped file, and an active mapping is replaced only after a poll found it drained |
| TailStates.OpenInv | qttail.cpp:651-736 | opening a file establishes the invariant |
| Reopening.OpenIff | qttail.cpp:738-836 | after any events, polls and consumption, polls that find nothing and a usable header leave the file mapped and ACTIVE, except exactly when the last of IN_CREATE and IN_DELETE was IN_DELETE, or was IN_CREATE with no IN_MODIFY since |
| Reopening.Reopened | qttail.cpp:824-835 | from every state, IN_CREATE and a later IN_MODIFY with anything but another creation or deletion between and after, then such polls: the file is ACTIVE and mapped by a mapping made since |
| Reopening.SelectedIff | qttail.cpp:738-794 | a poll leaves a message selected if and only if one was, or the scan finds one in a file that is open and not initializing |
| Reopening.SelectionKept | qttail.cpp:738-836 | a selected message stays selected and its file mapped until it is consumed, whatever events come |
| Watching.TailFile.SetStatus | qttail.cpp:800-836 | `statusIs` on the object is the value-level transition, with its asserts proved |
| Watching.TailFile.NextTsc | qttail.cpp:738-794 | the status part of `nextTsc` on the object is the value-level poll |
| Watching.DirDoInv | qttail.cpp:931-977 | every event for any tail keeps the directory invariant |
| Watching.NoLostNotification | qttail.cpp:931-977 | in every reachable state, if some tail waits in REINIT_PENDING then the watch includes IN_MODIFY |
| Watching.NotifiedIff | qttail.cpp:943-977 | after the modification of a tailed file the watch includes IN_MODIFY if and only if some file still waits for one |
| Watching.EachFile | qttail.cpp:931-951 | over any run of directory events each file goes through exactly the creations, deletions and modifications under its name |
| Watching.Watch.WatchForModificationsIs | qttail.cpp:957-977 | the flag changes unless some tail is REINIT_PENDING |
| Watching.Watch.ProcessEvent | qttail.cpp:931-951 | `process` on the objects is the value-level directory step |
| Templates.FindClosing | QtFmtGeneric.cpp:80-117 | the second loop finds exactly the placeholders `{}`, `{:x}` and `{:#x}`, and fails on everything else |
| Templates.CopyLiteral | QtFmtGeneric.cpp:46-78 | the first loop copies literal text, halves doubled braces, and stops at an opening brace, an unbalanced closing one, or the end |
| Templates.MsgDesc | QtFmtGeneric.cpp:31-130 | with a class `c` and function `f` the text is `c::f() ` and the translated template, with an empty class `f() ` and the translation, and with none the translation alone |
| Templates.TranslateWellFormed | QtFmtGeneric.cpp:31-130 | every well-formed template becomes the printf template with the same literal text, unescaped, and the same parameters in order and kind |
| Templates.TranslateStray | QtFmtGeneric.cpp:31-130 | a template with a stray brace is translated up to the first one and copied as it is from there |
| Templates.TemplateCases | QtFmtGeneric.cpp:31-130 | every text is a well-formed template, or one followed by a stray brace |
| Formatting.SpecIff | MessageFormatter.cpp:538-603 | exactly which specifications are accepted, with which length and stream state: `%%`, and the longest runs of flags, digits, precision and modifiers with a letter behind them |
| Formatting.FormatIsLength | MessageFormatter.cpp:354-386 | the formatters consume what the lengths of their own codes add up to, on every buffer |
| Formatting.TokeniseCodes | MessageFormatter.cpp:625-673 | tokenising uses the codes of the key in order, one for each specification |
| Formatting.InitCodes | MessageFormatter.cpp:500-690 | on the matched, wall-clock and mismatched paths the parameter formatters and the lengths are for the same codes |
| Formatting.Agreement | MessageFormatter.cpp:354-386 | decoder agreement: `length` and `format` return the same value on every buffer, the sum of the key's code widths, whichever path `init` took |
| FormatterInit.MessageFormatter.FindParam | MessageFormatter.cpp:626-633 | the `strchr` loop finds the next valid specification or none |
| FormatterInit.MessageFormatter.AddFormatter | MessageFormatter.cpp:505-536 | the first code of the rest of the key decides formatter and length, and the key position moves behind it and its comma; it fails if and only if no formatter supports the code |
| FormatterInit.MessageFormatter.PushText | MessageFormatter.cpp:640-651 | cutting the tokenised message with a NUL makes the new text end there and leaves every text pushed before unchanged |
| FormatterInit.MessageFormatter.OneSpec | MessageFormatter.cpp:625-673 | one round of the main loop is one step of the tokeniser, a stop where no parameter is left, or the exit at an unsupported code |
| FormatterInit.MessageFormatter.TokeniseMsg | MessageFormatter.cpp:625-673 | the main loop computes the tokeniser's result, unless it exits at an unsupported code |
| FormatterInit.MessageFormatter.ListParams | MessageFormatter.cpp:674-689 | a mismatch replaces everything by the message and all parameters in parentheses, and exits if and only if some code is unsupported |
| FormatterInit.MessageFormatter.Init | MessageFormatter.cpp:500-690 | `init` on any key text, with its moving pointers and cut string, exits if and only if some code is unsupported, and otherwise fills the two vectors exactly as `InitText` says |
| FormatterInit.InitTextIs | MessageFormatter.cpp:500-690 | on every key that `MsgFormatString` can build, that is the `Init` about which agreement is proved |
| FormatterInit.CutIff | MessageFormatter.cpp:538-603 | the specification is undefined exactly when the tokeniser meets a specification that the end of the message cuts off |
| Rendering.ScansSpec | MessageFormatter.cpp:538-603 | `getFormatParamSpec` recognises every specification of flags, width, precision, modifiers and a letter, whatever follows |
| Rendering.ShownByLetter | MessageFormatter.cpp:428-479 | what the formatter of each letter shows: nothing for the wall clock, else the value, in hexadecimal exactly if asked for and the letter has a hexadecimal formatter, and empty optionals as such |
| Rendering.MatchedIff | MessageFormatter.cpp:625-674 | message and key are used up together if and only if the message has as many specifications as the key has codes of its own |
| Rendering.MismatchShown | MessageFormatter.cpp:674-689 | for every message with another number of parameters than specifications, what is shown is the whole message, ` % (`, all parameters with commas between them, and `) ` |
| Rendering.MessageShown | MessageFormatter.cpp:500-690 | for every printf template and key, what `format` shows after `init` is the text with `%%` as one character and each parameter in its place, hexadecimal for `x` and `p`, `0x` in front for `p`, or else the mismatch form |
| FormatterInit.MessageFormatter.Format | MessageFormatter.cpp:354-373 | the loop over the formatters consumes and shows what the rendering laws are about |
| FormatterInit.MessageFormatter.LengthOf | MessageFormatter.cpp:375-386 | the loop over the length functions adds up the widths of the codes |
| Pipeline.DescriptorShown | QtFmtGeneric.cpp:31-130 | the whole way, for any text in front of any well-formed template: what is shown is that text as it is and the template with its parameters as the author means them, or the mismatch form |
| Pipeline.MemberShown | QtFmtGeneric.cpp:38-43 | the prefix of a member function is shown as class, `::`, function and `() ` |
| Pipeline.FunctionShown | QtFmtGeneric.cpp:38-43 | that of a function outside classes as its name and `() ` |
| Pipeline.PercentMisread | QtFmtGeneric.cpp:45-79 | percent signs are not doubled: the template `{}% done` with its one parameter is shown in the mismatch form |
| KeyStrings.MsgFormatString.Put | QuickTrace.cpp:154-158 | appends a comma unless the key is empty, then the text, if that fits the buffer; if and only if it does not, the position is lost |
| KeyStrings.BuildKey | QuickTrace.h:87-114 | one `put` for each parameter builds the key text of the codes, if and only if it has fewer than 256 characters |
| KeyStrings.PiecesOfKey | MessageFormatter.cpp:505-536 | taking the built text apart at its commas gives the codes back, all supported |
| KeyStrings.KeyHead | MessageFormatter.cpp:505-536 | up to its first comma a key reads as its first code, and after it comes the key of the rest |
| KeyStrings.WallClockPrefix | MessageFormatter.cpp:616-624 | the `"q,q,"` test succeeds if and only if the key starts with two U64 codes and has a third |
| Descriptors.ReadPrinted | MessageParser.cpp:34-46 | `strtoull` with base 0 on what `%d` or PRId64 printed gives the number back modulo the target width, for every 32-bit and 64-bit value, those that print as negative included |
| Descriptors.MsgDesc.Append | QuickTrace.cpp:214-229 | text is appended to the message in the buffer |
| Descriptors.MsgDesc.Finish | QuickTrace.cpp:183-212 | what is written to the file is the header, the message and the key, each string behind its length; the assert fails if and only if the key does not fit |
| Descriptors.WriteDesc | QuickTrace.h:544-550 | a descriptor built from any pieces of text is the descriptor of the joined text |
| Descriptors.PStringRead | MessageParser.cpp:48-55 | reading back a length-prefixed string gives the string and stops behind it |
| Descriptors.ParseWritten | MessageParser.cpp:92-115 | at version 3 or later `parse` at a descriptor returns all its fields and stops right behind it, whatever surrounds it |
| Descriptors.ParseEntry | MessageParser.cpp:92-115 | in every version `parse` returns the descriptor that stands there; before version 3, when there is no id in it, its id is its position |
| Descriptors.RoundTripIff | MessageParser.cpp:92-115 | a descriptor comes back if and only if its file name is not empty and has no white space |
| Descriptors.Messages.Parse | MessageParser.cpp:92-115 | the cursor-moving readers together compute `ParseAt`, and an empty result moves nothing |
| Descriptors.Messages.ParseNew | qttail.cpp:97-108 | in files of any version the loop reads every descriptor that the file holds, consumes every byte, and keeps the first one for each id |
| Descriptors.Messages.Get | qttail.cpp:79-90 | the answer is the first descriptor with the id anywhere in the dictionary, parsed only when needed; a message with empty text counts as unknown |
| Descriptors.Grown | MessageParser.cpp:117-120 | when the writer appends descriptors, what has been read stays read and the new ones are next |
| SelfTimes.Thread.Construct | QuickTrace.cpp:816-821 | pushes a zero for the block |
| SelfTimes.Thread.Destruct | QuickTrace.cpp:823-836 | pops the block, charges its counter and adds its duration to the enclosing block |
| SelfTimes.Conservation | QuickTrace.cpp:823-856 | over any LIFO run, any clock, from zeroed counters: the sum of all `tscSelfCount` equals the sum of the stack modulo 2^64 |
| SelfTimes.CountersAreSums | QuickTrace.cpp:823-856 | each counter's own time is the sum over the closed blocks that share it of duration minus direct children's durations, modulo 2^64; likewise for `tscCount`, and its count is the number of those without a message, modulo 2^32 |
| SelfTimes.OwnTimeNotNegative | QuickTrace.cpp:823-836 | when the clock never goes back, that difference is at least zero and at most the duration for every block |
| MsgIds.SetInitialized | QuickTrace.cpp:697-705 | exactly one id becomes initialised, whatever the vector's size |
| MsgIds.StepInv | QuickTrace.cpp:1122-1149 | every shared-memory access of every thread keeps: distinct non-zero ids, one holder of the mutex, flags that say what is in each file |
| MsgIds.IdsStay | QuickTrace.cpp:1122-1149 | an id once given to a site never changes |
| MsgIds.OneIdOneDescriptor | QuickTrace.h:544-557 | for fewer than 2^31 sites and any interleaving: two entries of any two files have the same id if and only if they are of the same site, no id is zero, and each file has exactly one descriptor for an id, before its first record with it |
| MsgIds.EachCallRecorded | QuickTrace.h:544-557 | whatever the interleaving, with enabled messages the records in a thread's file are those of the calls it has entered, in order and each once, except the one it is in |
| MsgIds.NoDeadlock | QuickTrace.cpp:1122-1149 | from every reachable state some run completes every call in progress |

## Left out

- Opening, mapping, truncating and syncing files, the sendfile backup, log rotation, inotify and poll: operating system behaviour; the file is a byte array, and directory events are steps that may come at any time.
- Rendering of timestamps, floating-point numbers and integers, stream flags, widths and precisions, and the `lastPrintedTsc_` difference in the output line: library formatting; a printed message is its record.
- The memory-size probe and the float arithmetic of `scaleDownSizes`: the size spec is an arbitrary input.
- Plugins, nested optional codes, and the Python, Go and C bindings: foreign calls or unsupported cases.
- Command-line parsing, qtctl, qtclear and qtpkt: separate programs that would add easy members.
- Fork handlers, the registry of trace handles and multi-file locking: they guard the code modelled here but add no law of their own.
- Torn reads inside one 8-byte tsc and hardware memory ordering: a store of the tsc, or of the id, is one step, and so is one reader call.
- Reads behind the mapping: they give zero in the ring models (the reader maps 128 KB more than the file), and `Wild` in the parser, where the source would fault.
- Templates and messages with embedded NUL characters: the source works on C strings.
- The branches for a negative `length` or `format`: no built-in code ever has length zero.
- Lazy parsing during `next`: the rings are read against a fixed registry of known messages; `Descriptors.Messages.Get` proves separately that parsing when needed gives the same answers.
- Timers and message ids in single-threaded handles used from signal handlers: QuickTrace.cpp:1127-1132 gives up the guarantee itself.
- Race.AcceptedIff: covers rings whose records have one size and readers at record boundaries; readers of mixed-size rings that were lapped may stand inside a record, which is not covered.
- LogFile.OpenLog: requires that the ring offsets fit an `int`, because the source converts them to one; an unlimited spec of 2 GiB or more is not covered.
- Race.RaceFreedom: requires what `TornRecord` shows to be needed, that the messages written to this ring have fixed-width parameters of one record size.
- Tailing.LossFree: requires that the writer does not overrun the reader, as the source gives no guarantee then.
- FormatterInit.MessageFormatter.Init: requires that the tokeniser meets no `%` specification that the end of the message cuts off, because `getFormatParamSpec` then reads past the NUL.
- Pipeline.DescriptorShown: requires that every percent sign in the template and in the names stands in front of a character that cannot go on a specification, because others may be read as one.
- Formatting.Agreement: claims nothing for messages with such a specification, for the same reason.
- Descriptors.MsgDesc.Finish: requires that the NUL of the message and the length word of the key fit the 1024-byte buffer, because the source stores them without a check.
- Descriptors.MsgDesc.Append: requires what the source asserts, that the text fits the buffer.
- KeyStrings.MsgFormatString.Put: requires that the position was not lost before, because the source would then write through a null pointer.
- Overflow of `stoi` on huge widths: the width of a specification is not modelled.
- User-defined `put` and `formatString` overloads: `CppTypes` has the types of the library's own overloads, and optionals of them.
