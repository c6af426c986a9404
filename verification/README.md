# A verified model of the LWES journaller

This project models, in Dafny, the hard parts of the LWES journaller and of the
C library it carries (`libut`), and proves what they promise. `dafny verify
dfyconfig.toml` checks all of it.

## What is modelled

**Search** (`Borders`, `TableCost`, `Kmp`). The Knuth-Morris-Pratt search of `utstring.h`, in
both directions: the table that is consulted while it is being filled, the scan
with its early exit, the wrappers with their negative start positions. The
specification is on strings (borders, matches) and knows nothing of tables; the
right-to-left half is proved through the mirror image. Ghost counters count the
character comparisons; what a table costs is given by the needle alone.

**Linked structures** (`Links`, `MergeSpec`, `ListSort`, `DoubleList`, `Bits`,
`Chains`, `HashTable`, `TableRuns`). Elements are heap objects with the link fields of
`utlist.h` and of `uthash.h`'s handle. One in-place bottom-up mergesort, with
the four link shapes as a parameter, stands for the four macros that repeat it;
it is proved equal to a function on sequences, and that function is proved a
sorted, stable permutation. The hash table keeps its bucket chains and its
application-order list over the same elements; its invariant is what
`HASH_FSCK` checks, together with unique keys and cached hashes, and its meaning
is a finite map and an order.

**Journaller** (`Segments`, `Pipeline`, `Stats`, `StatsRuns`, `SerialSpec`, `Serial`,
`Comparison`, `Archive`, `Journals`).
The threaded journaller is a state machine in which every read of a shared flag,
every queue operation and every journal write is a step of its own; a run is any
sequence of enabled steps, so every interleaving of enqueuer, dequeuer and signal
thread is one; its history notes what each rotate test found, and the segments
are the messages cut at the tests that found a command or a raised flag. The
serial journaller is a class whose methods are those of `serial_model.c`, proved
against the cut that the inputs determine. Both are compared through the way they cut the same records
into segments: the pipeline rotates before it writes, so a `Command::Rotate`
record opens a segment; the serial model writes before it rotates, so it closes
one. The journal files, their archive names and the counters of `stats.c` are
modelled beside them.

**Framing** (`Memory`, `Marshal`, `Header`, `Records`, `Split`). The 22-byte
header as `header_add` stores it, the accessors that read it, the discipline of
the receive buffer (of which only 42 bytes are cleared), the read loop of the
tools, and the splitter.

**Buffers and tools** (`UtVector`, `VectorRuns`, `RingBuf`, `RingRuns`, `Extrema`,
`Tally`, `JournalStats`). The
vector, whose slots own deep resources that are moved bit by bit; the byte ring;
the statistics tool, which works on the hash table above.

A method that changes state is proved against a function of the old state, and
the lemmas are about that function. Clocks, networks and files are parameters:
the time of a receipt, the outcome of a write, the next event of a transport.

### Where the code says something else than its texts

* Building a table takes more than two comparisons per character of some needles,
  counting the one made when an entry is stored (`CostlyTable`). `BuildTable`
  says of which: those with more than two detours, a detour being a change of the
  character that continues a border, on the way from the longest border of a
  prefix down to the one that the next character continues.
* The depth-test token is 23 bytes long, of which the receive loop clears 20.
  `DepthExact` says when stale bytes complete it, `StaleDepthToken` gives an input.
* The figures logged as the highest burst are those of the burst that ended last.
* `hiq` is 0 during a burst whose pending counts are all negative, and such a
  burst is not closed. `FollowsIff` says exactly when the counters are right.
* `max_bytes` of the statistics tool is stored in 16 bits after 59 has been
  added: it is right if and only if every size is at most 65476.
* Files that get the same archive name replace one another. `AllSurviveIff`,
  `ArchivesSurviveIff` and `FilesSurviveIff` say when.
* `utvector_copy` of a vector onto itself empties it.

## Model

| member | source | states |
|---|---|---|
| Borders.WalkStep | src/libut/include/utstring.h:174-177 | following a table entry after a mismatch skips no border that the next character continues |
| Borders.WalkEnd | src/libut/include/utstring.h:178-179 | where the walk stops, one more is the longest border of the next prefix |
| Borders.StoreStrong | src/libut/include/utstring.h:180-190 | the stored entry is the longest border whose continuation differs, given the longest border and earlier entries |
| Borders.ScanFallBack | src/libut/include/utstring.h:256-259 | the shift after a mismatch passes over no match |
| Borders.ScanAdvance | src/libut/include/utstring.h:260-268 | a matching character extends the alignment, or completes a match at it |
| Borders.MirrorMatch | src/libut/include/utstring.h:275-305 | matches are, mirrored, the matches of the reversed needle in the reversed text |
| Kmp.WalkBack | src/libut/include/utstring.h:174-177 | the nested loop finds the longest border that the next character continues, and costs one comparison and one more per change of continuation on the way |
| Kmp.BuildTable | src/libut/include/utstring.h:162-198 | entry i is the longest border k of the first i characters with P[k] != P[i], or -1; the last entry is the longest border of the needle; all comparisons together are 2(n - 1) plus the needle's detours, and at most 2n if and only if it has at most two; those of the nested loops are at most 2n in any case |
| Kmp.CostlyTable | src/libut/include/utstring.h:172-195 | building the table of a needle of six characters takes 13 comparisons |
| TableCost.StepCost | src/libut/include/utstring.h:174-177 | following a table entry after a mismatch costs one comparison, whatever the table skipped |
| TableCost.RoundCost | src/libut/include/utstring.h:172-179 | a round at a character behind the first costs one comparison and the changes of continuation on the way, a number that depends on the needle alone |
| TableCost.ThreeDetours | src/libut/include/utstring.h:172-195 | a needle of six characters with three detours |
| Kmp.Find | src/libut/include/utstring.h:242-271 | the smallest match position, -1 exactly when there is none, despite the early exit; at most 2 comparisons per character of the haystack |
| Kmp.WalkForward | src/libut/include/utstring.h:214-217 | the mirror image of WalkBack with table indices shifted by one, at the same cost |
| Kmp.BuildTableR | src/libut/include/utstring.h:202-238 | the right-to-left table is the mirror image of the strong failure function of the reversed needle; its comparisons are 2(n - 1) plus the detours of the reversed needle, and at most 2n if and only if that has at most two |
| Kmp.TablesMirror | src/libut/include/utstring.h:202-238 | slot by slot, the right-to-left table is the left-to-right table of the reversed needle |
| Kmp.FindR | src/libut/include/utstring.h:275-305 | the largest match position, -1 exactly when there is none, within 2 comparisons per character |
| Kmp.StringFind | src/libut/include/utstring.h:309-351 | the smallest match at or after the start, also for starts counted from the end; -1 for an empty needle |
| Kmp.StringFindR | src/libut/include/utstring.h:355-393 | the largest start of a match that lies wholly within s[0..start] |
| MergeSpec.SortCorrect | src/libut/include/utlist.h:109-167 | for every total preorder the result is a sorted permutation that keeps ties in their order |
| MergeSpec.SortPermutes | src/libut/include/utlist.h:109-167 | nothing is lost or invented, whatever the comparator returns |
| MergeSpec.PassRuns | src/libut/include/utlist.h:125-157 | one pass turns sorted runs of w elements into sorted runs of 2w |
| MergeSpec.PassStable | src/libut/include/utlist.h:125-157 | one pass reorders no ties |
| MergeSpec.MergeStable | src/libut/include/utlist.h:142-147 | taking the left run's element on a tie keeps ties in order |
| ListSort.SplitRun | src/libut/include/utlist.h:127-133 | the walk to the second run stops after w elements or at the end of the list |
| ListSort.MergeStep | src/libut/include/utlist.h:135-155 | one element moves from the two runs to the output, as the merge function says |
| ListSort.MergePass | src/libut/include/utlist.h:125-157 | relinking in place yields one pass of the sort; one merge is made exactly when two runs held the whole list |
| ListSort.ClosePass | src/libut/include/utlist.h:298-300 | each shape is restored: null-ended, head.prev the last, circular, application order |
| ListSort.Sort | src/libut/include/utlist.h:236-307 | in all four shapes the links spell the sorted sequence of the same elements, after max(1, ceil(log2 n)) passes |
| DoubleList.Prepend | src/libut/include/utlist.h:574-584 | the links spell the list with the new element in front |
| DoubleList.Append | src/libut/include/utlist.h:589-601 | the links spell the list with the new element behind |
| DoubleList.Concat | src/libut/include/utlist.h:606-619 | the links spell the first list followed by the second, either possibly empty |
| DoubleList.Delete | src/libut/include/utlist.h:624-640 | the links spell the list without the element, which keeps its own links |
| DoubleList.Replace | src/libut/include/utlist.h:670-694 | the links spell the list with the one element in the place of the other |
| HashTable.SlotIsRemainder | src/libut/include/uthash.h:320-323 | masking with the number of buckets less one is the remainder, the number being a power of two |
| HashTable.IdealLengthIsCeil | src/libut/include/uthash.h:802-804 | shift and mask give the number of items per new bucket, rounded up, and at least 1 |
| Chains.PushFront | src/libut/include/uthash.h:738-742 | a chain gains an element in front, and every chain invariant holds for the larger set |
| Chains.DelInBkt | src/libut/include/uthash.h:750-760 | a chain loses exactly the element, its count follows |
| Chains.FindInBkt | src/libut/include/uthash.h:714-733 | an element with that hash and key, or null exactly when the chain has none |
| Chains.MoveOne | src/libut/include/uthash.h:812-824 | one element moves to its new bucket; the excess over the ideal and the multiplier are kept exact |
| Chains.Rehash | src/libut/include/uthash.h:806-827 | all elements end in the bucket of their hash modulo the doubled count, with exact counts; nonideal_items is the sum of what exceeds the ideal |
| HashTable.Table.ExpandBuckets | src/libut/include/uthash.h:791-837 | expansion keeps the elements, doubles the buckets, and accounts for ideal length, excess, ineffective expansions and noexpand |
| HashTable.Table.MakeTable | src/libut/include/uthash.h:172-192 | the table of the first element, with 32 empty buckets |
| HashTable.Table.AppendList | src/libut/include/uthash.h:225-231 | the application order gains an element at its end |
| HashTable.Table.AddToBkt | src/libut/include/uthash.h:736-747 | the element joins its bucket; expansion happens exactly at the threshold and never once noexpand is set |
| HashTable.Table.Add | src/libut/include/uthash.h:284-305 | the map gains the key, the order gains the element at its end; the first element makes 32 buckets; a further one doubles them if and only if it brings the bucket of its hash to the threshold and noexpand is not set, and then ideal length, excess, ineffective expansions and noexpand follow; otherwise the accounts stay |
| HashTable.Table.AddElement | src/libut/include/uthash.h:284-305 | the same for the elements behind the first |
| HashTable.Table.Find | src/libut/include/uthash.h:131-136 | the lookup agrees with the abstract map for every key |
| HashTable.Table.Delete | src/libut/include/uthash.h:337-370 | the map loses the key, the order loses the element, the rest stays in order; deleting the last element leaves no table |
| HashTable.Table.Sort | src/libut/include/uthash.h:844-929 | the order is the mergesort's; map and bucket chains are untouched |
| HashTable.Table.DeleteAll | src/libut/include/uthash.h:997-999 | deleting while iterating visits every element once, in order, and empties the table |
| HashTable.Table.Fsck | src/libut/include/uthash.h:400-450 | under the invariant none of the checks fails |
| HashTable.MapMembers | src/libut/include/uthash.h:119-129 | with unique keys the list spells a map: every element under its key, and nothing else |
| HashTable.MapOfRemoved | src/libut/include/uthash.h:337-370 | removing an element removes its key and no other |
| HashTable.MapOfSorted | src/libut/include/uthash.h:844-929 | sorting changes no mapping |
| HashTable.SortedElements | src/libut/include/uthash.h:844-929 | sorting keeps elements and unique keys |
| TableRuns.Apply | src/libut/include/uthash.h:284-305 | one operation keeps the invariant and does to order and map what it should |
| TableRuns.Replay | src/libut/include/uthash.h:400-450 | after any run of additions of fresh keys, deletions and sorts the invariant holds, the map is the one the run spells, the order is that of insertion or of the last sort |
| TableRuns.WithoutOne | src/libut/include/uthash.h:346-366 | removing the element at its position is removing it by value |
| Marshal.ShortBytes | src/marshal.h:19-23 | the bytes stored for 16 bits: the quotient by 256 first, then the remainder |
| Marshal.LongBytes | src/marshal.h:25-29 | the four bytes stored for 32 bits, most significant first |
| Marshal.ULongLongBytes | src/marshal.h:39-45 | the eight bytes stored for 64 bits, most significant first |
| Marshal.ShortRoundTrip | src/marshal.h:19-23 | 16 bits written big-endian are read back by header_uint16, modulo 2^16 |
| Marshal.LongRoundTrip | src/marshal.h:25-29 | the same for 32 bits |
| Marshal.ULongLongRoundTrip | src/marshal.h:39-45 | the same for 64 bits stored as two halves |
| Header.HeaderAdd | src/header.c:31-42 | the 18 bytes stored through the moving pointer are the fields in order; all other bytes stay |
| Header.Layout | src/header.c:31-42 | length, receipt time, sender address, port and site follow one another at offsets 0, 2, 10, 14 and 16 |
| Header.FieldsRoundTrip | src/header.c:85-117 | every accessor returns what header_add was given |
| Header.ToknamEq | src/header.c:76-83 | the loop returns 1 exactly when the buffer continues with the name, length byte included |
| Header.ReceivedAt | src/xport_to_queue.c:84-95 | the buffer after a receive, byte by byte: header, zeros, payload, cleared bytes, stale bytes |
| Header.ReceivedFrame | src/xport_to_queue.c:84-95 | whatever the buffer held, its head becomes the record of the journal format |
| Header.TokensSpelled | src/header.h:63 | the rotate token is the length byte 15 and the letters of Command::Rotate; the depth token is the length byte 22 and those of Internal::Queue::Depth |
| Header.RotateExact | src/header.c:44-48 | the rotate test succeeds exactly when the payload just received starts with the token |
| Header.DepthExact | src/serial_model.c:187-189 | exactly when the depth test succeeds, stale bytes included |
| Header.StaleDepthToken | src/serial_model.c:156-158 | an input on which stale bytes complete the depth token |
| Header.ClearedHasNoName | src/queue_to_journal.c:122-139 | after an interrupted read no name is seen |
| Records.ReadAllComplete | src/lwes-journal-split.c:169-192 | the read loop loses no byte: its input is the records read and how it ended |
| Records.ReadBack | src/lwes-journal-split.c:169-192 | records whose headers state their length are read back, whatever follows them |
| Records.FramesReadBack | src/header.c:31-42 | frames of any datagrams of at most 65535 bytes are read back one by one, to the end |
| Records.ReadRecord | src/lwes-journal-stats.c:162-173 | one round of the loop reads the next record, or tells which read fell short |
| Records.FramingRoundTrip | src/header.c:31-42 | frames of any datagrams of at most 65535 bytes are read back with the same payloads and header fields |
| Split.ChunksExact | src/lwes-journal-split.c:199-218 | the cut of the records concatenates to them; every chunk but the last has n records, the last has the remainder; n <= 0 cuts nothing |
| Split.SplitJournal | src/lwes-journal-split.c:165-231 | the loop writes one file per chunk, named after the chunk's first nonzero and last receipt times, the last one after the last time read at all; a cut-off record leaves its header in the last file and its time in the name, and is the only reason to fail; the files' contents and what is not copied are the input |
| Split.FilesConcatenate | src/lwes-journal-split.c:169-221 | for every input the bytes of the files concatenate to it, but for a short header or a cut-off payload at its end |
| Split.FilesSurviveIff | src/lwes-journal-split.c:205-230 | for every input and n, no file is lost if and only if no two chunks of the same first nonzero and last receipt times differ in bytes |
| Split.SameMillisecond | src/lwes-journal-split.c:205-214 | splitting the journal of two records of one millisecond one by one loses the first file |
| Segments.CutsCounted | src/queue_to_journal.c:146-208 | both cuts make one segment more than there are rotate records |
| Segments.PipelineConcat | src/queue_to_journal.c:146-208 | cutting before rotate records loses and reorders nothing |
| Segments.SerialConcat | src/serial_model.c:289-299 | cutting behind rotate records loses and reorders nothing |
| Segments.PipelineLeads | src/queue_to_journal.c:146-208 | every segment but the first starts with a rotate record |
| Segments.SerialVersusPipeline | src/serial_model.c:278-306 | for the same records both cuts have as many segments, and serial segment k is pipeline segment k less its leading rotate record plus that of segment k+1 |
| Pipeline.InvAlways | src/queue_to_journal.c:117-209 | the invariant of buffers, queue and conservation holds after every run |
| Pipeline.EnqInvStep | src/xport_to_queue.c:74-147 | between read and write the enqueuer holds exactly the frame of the last datagram |
| Pipeline.DeqInvStep | src/queue_to_journal.c:117-209 | the dequeuer's buffer names a rotate command only if the message it holds does |
| Pipeline.ConservationAlways | src/queue_to_journal.c:117-225 | in every interleaving the frames received, in order and less failed queue writes, are the records handed over, the one in flight, those drained and the queue; the segments hold what was handed over less failed writes; the drain takes at most arg_queue_max_cnt + 1 |
| Pipeline.RotationsBounded | src/thread_model.c:54-72 | in every interleaving rotations never exceed rotate signals plus rotate commands dequeued, these counted over the run and its messages; there are as many closed segments as rotations, and one more at the end |
| Pipeline.CountsAlways | src/queue_to_journal.c:146-213 | after any run the closed segments are as many as rotations and ends, the commands are the rotate records among the messages dequeued, the signals those of the run |
| Pipeline.RotationCause | src/queue_to_journal.c:146-184 | a rotation needs a raised flag or a rotate command at hand, never stale bytes; the flag is cleared only in an iteration that rotated or saw shutdown |
| Pipeline.PaidStep | src/sig.h:32-33 | every rotation and every raised flag is paid for by a signal or a command |
| Pipeline.RaisedFlagRotates | src/queue_to_journal.c:146-208 | in every run, a rotate test that finds the flag up rotates exactly once: when the dequeuer is back at its loop without a shutdown, the open segment is closed and the message at hand, if written, is all that the new one holds |
| Pipeline.SignalAnswered | src/queue_to_journal.c:146-171 | a flag raised before a test has led to a rotation when the dequeuer is next at its loop after a test, whatever the interleaving, unless a shutdown came |
| Pipeline.RaisedFlagReports | src/xport_to_queue.c:107-123 | a test of the enqueuer that finds its flag up makes one report and takes the flag down |
| Pipeline.SignalReported | src/xport_to_queue.c:107-123 | a signal that comes before a test of the enqueuer has been reported when it is next at its loop after a test |
| Pipeline.DoneIffSignalled | src/thread_model.c:54-72 | gbl_done is up exactly when a termination signal has come |
| Pipeline.DoneEnds | src/queue_to_journal.c:117-213 | once gbl_done is up, in every interleaving at most one more datagram is received and one more message handed over |
| Pipeline.DrainEnds | src/queue_to_journal.c:220-225 | the drain ends exactly with a failed read or with message arg_queue_max_cnt + 1; a negative maximum is no bound |
| Pipeline.TestsCounted | src/queue_to_journal.c:117-148 | in every run each thread makes one rotate test for every read that did not fail and none for one that did |
| Pipeline.ShutdownTested | src/queue_to_journal.c:146-184 | a rotate test that starts with gbl_done up closes no segment, takes the flag down and hands over the message at hand |
| Pipeline.EnqShutdownTested | src/xport_to_queue.c:107-123 | a test of the enqueuer with gbl_done up makes no report and takes the flag down |
| Pipeline.TestCutExact | src/queue_to_journal.c:146-208 | cutting the messages of the tests at the calls for a rotation loses and reorders nothing and makes one segment more than there are calls |
| Pipeline.SignalledSegments | src/queue_to_journal.c:146-213 | with any number of rotate signals and without failed writes, what was handed over are the messages of the tests and the closed segments are their cut wherever a rotate command was at hand or the flag was seen up, save that a call met by the shutdown does not cut |
| Pipeline.PipelineSegments | src/queue_to_journal.c:146-213 | without rotate signals and failed writes the closed segments are the pipeline cut, save that a rotate command held when shutdown was seen does not cut |
| Pipeline.PipelineVersusSerial | src/queue_to_journal.c:117-225 | the segments of a complete pipeline run against the serial cut of what was received: as many segments, the same journal, rotate records on the other side |
| Comparison.RunBeside | src/serial_model.c:278-306 | a run of the serial loop on the datagrams that a complete run of the pipeline received writes the same journal in as many segments, rotate records on the other side |
| Serial.Journaller.SerialRead | src/serial_model.c:151-183 | buffer, length, count and counters after a datagram, an interruption or an error |
| Serial.Journaller.HandleDepthTest | src/serial_model.c:185-224 | a depth test is taken back out of the counters and sets pending |
| Serial.Journaller.SerialWrite | src/serial_model.c:249-262 | the record joins the segment unless the write failed, which is a loss; all counters and burst times follow, the pending count converted to an int |
| Serial.ToInt32Exact | src/serial_model.c:261 | the conversion keeps the value modulo 2^32, in the range of an int |
| Serial.Journaller.CloseJournal | src/serial_model.c:117-143 | the segment is closed; each side reports and starts a new period exactly when its flag is up, a rotate command came or the program ends; both flags are down afterwards |
| Serial.Journaller.RotateIfDue | src/serial_model.c:296-299 | a rotate command or a flag closes the segment, both sides report, the flags are down; without either nothing happens |
| Serial.Journaller.Round | src/serial_model.c:278-306 | a round that comes to its rotate test with a flag up or a payload that starts with the rotate token closes the segment behind what it wrote, and both sides report all counters and times as they stand and start a new period; any other round reports nothing and closes nothing; flags, counts and pending follow, and received and written totals stay equal |
| Serial.Rounds | src/serial_model.c:278-306 | the loop runs at least once and stops only for shutdown |
| Serial.SerialModel | src/serial_model.c:274-309 | at the end, whatever hangups, depth tests and failures there were, the segments are those that the inputs determine; without depth tests and failed writes they hold every datagram in order; without hangups they are the serial cut |
| SerialSpec.RoundCuts | src/serial_model.c:278-306 | a round closes the segment, with what it wrote at its end, if and only if it comes to its rotate test and has a rotate command or an unanswered hangup, a condition on the inputs; any other round leaves the closed segments alone |
| SerialSpec.RaisedIsHungUp | src/serial_model.c:296-299 | the flags are up exactly when a hangup came and no round since has come to its rotate test |
| SerialSpec.EveryFrameWritten | src/serial_model.c:278-306 | without depth tests and failed writes the segments concatenate to the frames of all datagrams, whatever the signals |
| SerialSpec.PlainSegments | src/serial_model.c:278-306 | if there are no hangups either, the segments are the serial cut of the frames |
| SerialSpec.NeverDepthTest | src/serial_model.c:187-189 | a payload that does not start with the first 20 bytes of the token is never taken for a depth test |
| Stats.DequeuerStats.RecordPacket | src/stats.c:157-204 | counters and burst start times after a record, as the step functions say |
| Stats.DequeuerStats.RotatePeriod | src/stats.c:257-264 | counters, times and rotation type are reported, the period is reset with its rotation time and type, the current burst is left intact |
| Stats.EnqueuerStats.Rotate | src/stats.c:76-113 | counters and the start of the period are reported, the period is reset with its rotation time, totals stay |
| StatsRuns.RunEnqueuer | src/stats.c:55-113 | for every trace of datagrams, erased datagrams, socket errors and rotations the class holds and reports the sums over the trace: totals over all of it, errors, bytes and packets over what happened since the last rotation |
| StatsRuns.ArrivalsConserved | src/stats.c:55-113 | all that was received, less what was taken back, and all errors are in the reports and the current period |
| StatsRuns.RunDequeuer | src/stats.c:157-264 | for every trace the class holds and reports the counters and times that the trace determines |
| Stats.BurstTracked | src/stats.c:168-203 | for every trace hiq, packets and bytes in burst are peak, length and sum of the longest suffix of records with something pending, across rotations; the burst figures of the period are those of the burst that ended last |
| Stats.NegativePendingBreaks | src/stats.c:169-181 | an input on which the burst counters go wrong |
| Stats.FollowsIff | src/stats.c:169-198 | for every trace, the counters follow the burst at every moment if and only if every burst that is ended had a positive pending count |
| Stats.TimesTracked | src/stats.c:185-189 | for every trace hiq_start is when the latest burst started and hiq_last when the one before it did, across rotations; last_rotate and the rotation type are those of the last rotation and of a command since |
| Stats.TotalsConserved | src/stats.c:157-204 | totals are the sums over the trace and the sum of all reports and the current period; bytes, packets and losses of the period are the sums since the last rotation; the high-water mark is the highest peak since then |
| Archive.AllSurviveIff | src/rename_journal.c:58-64 | moving files into a directory loses none if and only if no two of the same name differ |
| Journals.Journals.RenameJournal | src/rename_journal.c:30-70 | the file gets its archive name and leaves its path; other files stay |
| Journals.Journals.XOpen | src/journal_file.c:58-131 | opening an open journal fails without effect; otherwise a leftover file is archived and the journal is open and empty |
| Journals.Journals.XClose | src/journal_file.c:133-151 | closing a closed journal fails without effect; otherwise the file is archived under open and close time |
| Journals.Journals.Write | src/journal_file.c:159-166 | the record joins the open file |
| Journals.Journals.Rotate | src/queue_to_journal.c:37-59 | after every rotation exactly journal (rotations mod njournals) is open |
| Journals.Journals.Shutdown | src/queue_to_journal.c:211-218 | at the end no journal is open and the last file is archived; the renames account for every record written, and are all on disk if successive closes of a path fell in increasing seconds |
| Journals.Journals.ArchivesIntact | src/rename_journal.c:30-70 | if successive closes of a path fall in increasing seconds, every archive is on disk with its records, whether or not a journal is open |
| Journals.Journals.EveryRecordOnce | src/rename_journal.c:30-70 | if successive closes of a path fall in increasing seconds, every archive is intact, and archives in close order and the open file hold every record once |
| Journals.ArchivesSurviveIff | src/rename_journal.c:40-64 | archives survive if and only if no two different ones share path, open second and close second |
| Journals.SameSecondLoses | src/rename_journal.c:40-64 | a run that writes, rotates, writes and rotates within one second: the first archive is lost |
| UtVector.Vector.constructor | src/libut/src/utvector.c:57-62 | an empty vector with 16 initialised slots |
| UtVector.Vector.MmInit | src/libut/src/utmm.c:38-48 | each slot gets a new live resource |
| UtVector.Vector.MmFini | src/libut/src/utmm.c:50-57 | each resource is live when finalised, so that none is finalised twice |
| UtVector.Vector.MmClear | src/libut/src/utmm.c:59-69 | the resources of the slots are cleared, the others stay |
| UtVector.Vector.MmCopy | src/libut/src/utmm.c:71-83 | the values are copied into the slots' resources, the others stay |
| UtVector.Vector.Reserve | src/libut/src/utvector.c:64-74 | contents and ownership kept; a vector with too few free slots grows by the larger of what is missing and twice its size, others stay |
| UtVector.Vector.Fini | src/libut/src/utvector.c:76-81 | no resource is left live, every one has been finalised |
| UtVector.Vector.Copy | src/libut/src/utvector.c:93-100 | the contents become the source's; a vector copied onto itself is emptied |
| UtVector.Vector.Extend | src/libut/src/utvector.c:107-113 | one cleared element joins the contents |
| UtVector.Vector.Push | src/libut/src/utvector.c:168-172 | the element joins the contents |
| UtVector.Vector.Pop | src/libut/src/utvector.c:133-136 | the last element leaves the contents; its resource stays live in its slot |
| UtVector.Vector.Shift | src/libut/src/utvector.c:147-154 | the first element leaves the contents; its resource and no other is finalised, one new one is initialised, and every slot holds a distinct live resource again |
| UtVector.Vector.Erase | src/libut/src/utvector.c:156-166 | the k-th element leaves the contents; its resource and no other is finalised; an index out of range changes nothing |
| UtVector.FiniLedger | src/libut/src/utvector.c:149-150 | finalising one slot's resource and dropping the slot keeps the ownership of all others |
| UtVector.Vector.LiveOrFinalised | src/libut/src/utvector.c:147-154 | every resource ever initialised either is live, in exactly one slot, or has been finalised |
| VectorRuns.Apply | src/libut/src/utvector.c:64-172 | one operation does to the contents what it should; what was finalised stays finalised |
| VectorRuns.Replay | src/libut/src/utvector.c:64-172 | after any run the contents are those of the sequence, every resource ever initialised is live in one slot or finalised, and what was finalised stays so |
| VectorRuns.Lifetime | src/libut/src/utvector.c:57-81 | a vector from init through any run to fini: every resource initialised has been finalised |
| RingBuf.WindowGrows | src/libut/src/ringbuf.c:39-43 | bytes stored around the end extend the pending window |
| RingBuf.Ring.Put | src/libut/src/ringbuf.c:23-45 | succeeds exactly when the bytes fit, and appends them; all assertions hold, full versus empty included |
| RingBuf.Ring.GetNextChunk | src/libut/src/ringbuf.c:51-71 | a contiguous prefix of the pending bytes, empty exactly when nothing is pending |
| RingBuf.Ring.MarkConsumed | src/libut/src/ringbuf.c:73-77 | the oldest bytes leave |
| RingBuf.Ring.Drain | src/libut/src/ringbuf.c:51-77 | two rounds of chunk and mark drain any ring, in order |
| RingRuns.Replay | src/libut/src/ringbuf.c:23-81 | any run of puts, consumptions and clears gives the contents and the results of a bounded first-in, first-out queue |
| Tally.RowExact | src/lwes-journal-stats.c:80-83 | events and bytes are right on every input; the minimum if and only if some size is at most 65476, the maximum if and only if all are |
| Tally.OverflowLosesMax | src/lwes-journal-stats.c:83 | the smallest size beyond the limit makes the stored maximum 0 |
| Tally.TotalExact | src/lwes-journal-stats.c:98-109 | in whatever order the rows come, TOTAL summarises the whole stream |
| Tally.StrCmpIsPrecedes | src/lwes-journal-stats.c:86-88 | strcmp is negative if and only if, at the first position where the names part, the first has ended or has the smaller byte |
| Tally.StrCmpOrders | src/lwes-journal-stats.c:86-88 | strcmp orders names totally and ties only equal ones |
| JournalStats.EventStats.FindOrAdd | src/lwes-journal-stats.c:68-79 | there is one entry per name seen, in order of first appearance |
| JournalStats.EventStats.UpsertStats | src/lwes-journal-stats.c:49-84 | the event is counted in the row of its name, all other rows stay |
| JournalStats.EventStats.SortByName | src/lwes-journal-stats.c:97 | the rows are in strictly ascending order of the bytes of their names, and as before otherwise |
| JournalStats.EventStats.PrintStats | src/lwes-journal-stats.c:90-116 | one line per name, in ascending order of their bytes, each right in the sense of RowExact, a TOTAL line, and the table is empty afterwards |
| JournalStats.CountJournal | src/lwes-journal-stats.c:162-184 | the report, names in ascending order of their bytes, on all records up to the first truncated one or unreadable name, on which the tool fails |

## Left out

- Sockets, message queues, gzip and stdio, forking, thread creation, logging, mondemand and the queue's and transport's own code: events, outcomes and times are parameters.
- Option parsing, daemon set-up, user lookup, disk-space warnings, log rotation flags, sleeps.
- `HASH_ADD_KEYPTR_BYHASHVALUE_INORDER` mixes element and handle pointers, `HASH_SELECT` does not maintain the destination's tail; neither is used by the journaller.
- Concrete hash functions (any function of the key is allowed), the Bloom filter, the `NO_DECLTYPE` variants, handle offsets (handles are the elements), memory exhaustion and the wrap-around of 32-bit item counts.
- Singly linked and circular list operations other than sorting, and the DL_*_ELEM insertions: they add nothing that DL_* and the sorts do not show.
- Kmp.Find: lengths are below 2^31, where the casts to int in the loop conditions are the identity.
- Kmp.StringFind: a start before the beginning of the string, and for Kmp.StringFindR one behind its end, read outside the buffer in the original and are excluded.
- Pipeline.PipelineVersusSerial: like Comparison.RunBeside, speaks of runs that lose nothing, see no rotate signal and shut down with an empty queue; SignalledSegments and ConservationAlways say what other runs do.
- Pipeline.RaisedFlagReports: the counters of the two threads are not part of the state machine, only the number of reports is.
- Serial.SerialModel: signals are delivered between the read and the looks at the flags; sending depth tests is not modelled, receiving them is.
- Stats.DequeuerStats.RecordPacket: start_time and the report on the whole lifetime, the rates and the copy of the rotate header are not modelled, and counters do not wrap around.
- Header.ToknamEq: names have at most 254 characters, beyond which the 8-bit counter of the original wraps.
- Split.SplitJournal: writes and renames succeed, and file names are pairs of times; the parsing of the input's name is not modelled.
- Journals.Journals.RenameJournal: an archive name is a triple of path and two times, the local-time string being a function of one of them; file operations succeed.
- Journals.Journals.constructor: files of earlier runs may be there, but archives of earlier runs that a rename replaces are not part of the claim.
- UtVector.Vector.MmInit: resources are numbers with an abstract state; a null init, fini, clear or copy is the case of the identity or of plain values.
- UtVector.Vector.Copy: the source's elements are read as values before they are copied; sizes do not wrap around.
- RingBuf.Ring.constructor: a ring of size 0 is excluded, since the original then takes remainders modulo 0.
- JournalStats.CountJournal: `unmarshall_SHORT_STRING` is not part of this repository and is a parameter.
- `utarray.h`, `utringbuffer.h`, `time_utils.c` and `process_model.c` would only add easier members.
