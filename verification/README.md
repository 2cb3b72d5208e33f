# ZephyrDB in Dafny

ZephyrDB is a small embedded database with three storage engines behind one
instance lock. This project models the engines' state and file formats and
proves what each engine is for. `dafny verify dfyconfig.toml` checks all of it.

**Time series.** A stream is a sequence of samples. Records of two formats are
encoded into an ingest buffer and appended to numbered segment files; a segment
rolls when it is full, a new one starts when a timestamp does not fit the 32-bit
offset from the segment's base, and the oldest ones are discarded.
`TsRecord` has the byte formats, `TsLog` the abstract log and its runs, `TsFiles`
what files mean and what a crash may leave of them, `TsStream` the stream as the
engine updates it, `TsLife` its runs with any number of crashes and restarts, `TsCursor` and `TsAggregate` the readers, `TsFlush` the flush
handshake between threads, and `TsCore` the stream table with the byte counts
that are recorded under the lock and published after it. `CoreHealth` is the
instance's health flag and its event.

**Key-value.** A map from (namespace, key) to value lives in hashed slots that
may collide, next to a separately written index of the slots in use. `KvRecord`
has the formats, `KvSpec` the store as functions on the backend, `KvIndex` the
index and the table in RAM, `KvIteration` an iteration over a table that changes,
and `KvStore` the store as it runs.

**Documents.** Typed fields are serialized under a digest that is computed in one
pass and written in another, and a save is staged and renamed. `DocCodec` has
fields, setters, serializer and parser, `DocDisk` the files and their crash
images, and `DocStore` the handle, the sinks, the reader and the save.

**Environment.** Files are maps from a name to bytes. Rename and unlink are atomic;
a write may be cut to any prefix. The key-value backend is a map from id to bytes
with atomic writes of one record. The classes keep a ghost set of every state a
crash so far could have left behind, and the crash theorems range over that set.
The checksum is a fold of an arbitrary step function over bytes and the hash is an
arbitrary function, so no result leans on their strength. Clocks and time-outs are
inputs.

**Where promise and code part.** Each entry names the statements that say when the
code keeps the promise and when it does not.

- A save is old-or-new under every crash exactly when there is a live file or the
  staging file does not parse (`DocDisk.AtomicIffGuarded`): the save truncates the
  staging file that an open would have promoted.
- When calls may fail as well, it is so exactly when, besides, the file system
  replaces on rename or there is no live file (`DocDisk.AtomicIffOverwrites`): the
  fallback unlinks the live file, and when its second rename fails the staging file
  is removed too.
- A reset cursor repeats its walk exactly when nothing in the segments it passed
  matches the query (`TsCursor.RewoundRepeats`, `TsCursor.WalkResetWalk`), because
  only the open file is rewound; `TsCursor.ResetMisses` is a stream where it fails.
- An iteration misses a stored key when an entry is dropped from the table. A delete
  does so exactly when it closes a gap before the position while the entry at the
  position is of the namespace (`KvIteration.DeleteWhileIterating`), as in the retry
  over a key that went stale; a failed overwrite does so in that case, and when its
  own key is still ahead (`KvIteration.OverwriteWhileIterating`).
- The segment scan is exact if and only if the newest number is below 10000
  (`TsFiles.WindowRebuilt`), because it reads four digits.
- `zdb_ts_flush_sync` can leave a caller waiting for nothing exactly when there is
  more than one thread (`TsFlush.StrandsIffCompany`): calls share one binary token.
  No caller is left so while no token is taken from a waiting one
  (`TsFlush.UndisturbedServed`, and step by step `TsFlush.StrandedIffLost`), and a
  waiting caller can be in every state that has another thread
  (`TsFlush.CompanyStrands`).
- One HEALTH event goes out per instance exactly when no two checks overlap
  (`CoreHealth.OnceIffNoOverlap`), as when faults are found under the lock
  (`CoreHealth.LockedChecksOnce`); recovery checks outside it
  (`CoreHealth.OverlappingChecksRepeat`).
- The count of a stream's handles is right exactly while no more than 255 are live,
  where it saturates, and no open that failed in recovery is counted
  (`TsCore.CountExact`): such an open keeps its claim, so its block stays taken
  (`TsCore.FailedOpenStrands`) and the last live handle closes without a flush
  (`TsCore.FailedOpenUnflushed`).
- A stream opens after a crash unless the newest file holds part of a header
  (`TsStream.Stream.Open`). A segmented stream then reports an I/O error in
  place of the CORRUPT of its header check, because recovery asks for the path of
  the newest segment and that call reports every failed scan as one.
- A stored key goes unindexed exactly when the table is full or the overwrite of a
  present key fails (`KvStore.Store.Set`).
- A delete of a document with a complete staging file beside it can bring the
  staged version back after a crash (`DocDisk.DeleteCrash`), or when the second
  unlink fails (`DocDisk.DeleteHolds`).
- The comment above `zdb_doc_delete` calls deleting a missing document a success;
  the code returns NOT_FOUND, and so does `DocStore.Delete`.

## Model

| member | source | states |
|---|---|---|
| TsRecord.DecodeEncode | zephyrdb_ts.c:648-712 | A record of either format whose timestamp fits its base decodes back to the sample it was encoded from |
| TsRecord.DecodeIntact | zephyrdb_ts.c:304-335 | A record decodes if and only if its last four bytes are the digest of the others and, self-describing, it has magic and version; UNSUPPORTED when the magic is right and the version is not, otherwise CORRUPT |
| TsRecord.DecodeSound | zephyrdb_ts.c:682-712 | The converse of the round trip: a record that decodes is the encoding of the sample it decodes to, a compact one whenever its timestamp does not wrap, a self-describing one up to the reserved half-word |
| TsRecord.DecodableAnyBase | zephyrdb_ts.c:682-712 | Whether a record decodes at all does not depend on the base it is read with, so recovery may walk a file with any base |
| TsRecord.EncodeSlice | zephyrdb_ts.c:489-535 | Record i of a run laid end to end sits at its stride, and the bytes before it are the first i records |
| TsRecord.HeaderRoundTrip | zephyrdb_ts.c:968-1096 | A written segment header validates as the format and base it was written with, whatever follows it |
| TsRecord.HeaderSound | zephyrdb_ts.c:968-1096 | A header validates as a format if and only if it carries magic, version, stream and digest of that format, and then with the base it carries |
| TsRecord.TornHeaderRefused | zephyrdb_ts.c:968-1096 | A file that holds a strict, non-empty prefix of a header never validates |
| TsRecord.LayoutOfSegment | zephyrdb_ts.c:754-802 | The layout a reader learns from a segment file is the one its header was written with |
| TsRecord.DecodeAllEncodeAll | zephyrdb_ts.c:682-712 | Decoding records laid end to end returns the samples, and part of a record after them is not taken for one |
| TsRecord.DecodeSegment | zephyrdb_ts.c:897-959 | A segment file decodes to exactly the samples of its segment |
| TsRecord.DecodeAllStops | zephyrdb_ts.c:3101-3150 | The decodable run ends exactly at the first record that is short or not intact; every record before it is intact and yields its own sample |
| TsRecord.GoodEndExact | zephyrdb_ts.c:3101-3160 | Recovery has exactly one place to cut a file: after records that all carry their digest, before one that is short or does not |
| TsRecord.RecoverTwice | zephyrdb_ts.c:2981-3186 | The point where recovery cuts a file is a fixed point: a second recovery removes nothing |
| TsRecord.RecoverTorn | zephyrdb_ts.c:2981-3186 | A segment file followed by less than one record recovers to exactly the segment file and decodes to exactly its samples |
| TsLog.StartKeeps | zephyrdb_ts.c:1275-1336 | Starting a segment keeps the log well formed and loses nothing but the whole oldest segments it moves to the discarded ones; with rollover the bound holds afterwards |
| TsLog.WrittenKeeps | zephyrdb_ts.c:489-535 | Writing the buffer moves the pending samples to the end of the newest segment, in order, and loses none |
| TsLog.FlushKeeps | zephyrdb_ts.c:489-552 | A flush, with the roll it may trigger, preserves the history and empties the buffer |
| TsLog.FlushExact | zephyrdb_ts.c:489-552 | A flush puts the buffer at the end of the newest segment; it begins one segment, with the same base, if and only if the stream is segmented, something was written, and the bytes have reached the segment size; segments are discarded only past the bound |
| TsLog.StartExact | zephyrdb_ts.c:1275-1336 | Beginning a segment adds exactly one empty segment with the given base and discards the oldest ones exactly down to the bound |
| TsLog.PreparedFits | zephyrdb_ts.c:1775-1823 | For any 64-bit timestamp, after at most one flush and one rebase the record fits both the buffer and the base |
| TsLog.AppendAdds | zephyrdb_ts.c:1735-1824 | An append is refused only when the buffer cannot hold one record, changing nothing; otherwise it adds exactly its sample at the end of the history |
| TsLog.AppendExact | zephyrdb_ts.c:1735-1824 | An append with room in the buffer and a timestamp in reach of the base changes the buffer only; without room it flushes first; out of reach it flushes and begins one segment based on the timestamp of the sample |
| TsLog.AppendAllAdds | zephyrdb_ts.c:1853-1934 | A batch adds exactly its samples, in order |
| TsLog.StepKeeps | zephyrdb_ts.c:1735-1934 | Every operation of a run preserves well-formedness and extends the history by exactly what it accepted |
| TsLog.RunHoldsSuffix | zephyrdb_ts.c:1735-1934 | Over every run of appends, batches, flushes, rolls, rebases and reopens, segments plus buffer are a suffix of all accepted samples; what is missing is exactly the whole discarded segments, and nothing is missing without rollover |
| TsLog.FlushTight | zephyrdb_ts.c:489-552 | A flush of a segmented stream of either format keeps every sealed segment full, or out of reach of the next base, no segment over its size by a whole buffer, and none discarded early |
| TsLog.RunTight | zephyrdb_ts.c:1735-1934 | That holds after every crash-free run started empty |
| TsLog.RetentionBounds | zephyrdb_ts.c:1275-1346 | In every crash-free run of a segmented stream of either format the newest segment is below SEGMENT_BYTES, no segment exceeds SEGMENT_BYTES + capacity - 1, and a bounded stream that discarded anything still has MAX_SEGMENTS segments; self-describing records in them are at least the newest (MAX_SEGMENTS - 1) * SEGMENT_BYTES bytes |
| TsLog.FileBytesAre | zephyrdb_ts.c:1311-1336 | The bytes a discard counts are one header per file and the records in them |
| TsFiles.HoldsDecodes | zephyrdb_ts.c:812-959 | Files that hold a list of segments decode, oldest file first, to the samples of those segments |
| TsFiles.TornHeaderImage | zephyrdb_ts.c:1275-1310 | Cutting the header write of a new segment at any byte leaves a crash image that misses nothing but segments that start may discard, counted from the number of its first file |
| TsFiles.DiscardImage | zephyrdb_ts.c:1311-1336 | Stopping between two unlinks of the discard loop leaves a crash image whose first file number tells the segments missing, never more than the bound lets the loop discard |
| TsFiles.TornFlush | zephyrdb_ts.c:489-535 | A flush cut at any byte n leaves the old records, exactly the whole records among those n bytes, and less than one record of tail |
| TsFiles.CrashKeepsStored | zephyrdb_ts.c:489-552 | Whatever a crash leaves is a contiguous run of files that decodes to the stored samples less the oldest segments, followed by a prefix of the buffered ones; the segments missing are at most those past the bound, none without rollover, and none unless the buffer was written in full first |
| TsFiles.WindowRebuilt | zephyrdb_ts.c:1143-1215 | The four-digit minimum and maximum scan rebuilds a contiguous window exactly if and only if the newest number is below 10000 |
| TsFiles.AdoptedIs | zephyrdb_ts.c:1143-1261 | A stream written as a single file is found as segment 0 when it has no segments, and left alone when it has |
| TsFiles.RecoverLayoutSound | zephyrdb_ts.c:2981-3100 | Recovery walks a file as compact exactly when it says so and is long enough, and otherwise only behind an intact self-describing header |
| TsFiles.CrashLeaves | zephyrdb_ts.c:1275-1346 | Every crash image is one of the cases an opening is proved for, starts at the oldest segment less those discarded, and misses no more segments than starting one may discard |
| TsFiles.AgainSafe | zephyrdb_ts.c:1615-1690 | A second crash, anywhere in the opening that follows the first, leaves an image that is crash safe for the log before the first |
| TsStream.Stream.EnsureHeader | zephyrdb_ts.c:968-1096 | Creates the header of an empty file, cut at any byte by a crash, or reports the validation of an existing one and changes nothing |
| TsStream.Stream.DiscardExcess | zephyrdb_ts.c:1311-1336 | The discard loop terminates, drops exactly the segments past the bound, counts exactly their file sizes, and a crash between any two unlinks misses no more than those |
| TsStream.Stream.StartSegment | zephyrdb_ts.c:1275-1336 | The byte-level start of a segment refines the abstract one; a crash at any point misses at most the segments past the bound, none without rollover |
| TsStream.Stream.Flush | zephyrdb_ts.c:489-552 | The byte-level flush refines the abstract one, records exactly the bytes written and discarded, and a crash at any point keeps every stored segment but those past the bound |
| TsStream.Stream.PutRecord | zephyrdb_ts.c:1786-1812 | Encodes a sample at the end of the buffer exactly when its timestamp fits the base, and otherwise changes nothing |
| TsStream.Stream.Rebase | zephyrdb_ts.c:1786-1812 | Flushes what is buffered before the base changes, then starts a segment with the new base |
| TsStream.Stream.Append | zephyrdb_ts.c:1735-1851 | The byte-level append refines the abstract one; bytes written plus bytes buffered grow by exactly one record |
| TsStream.Stream.AppendBatch | zephyrdb_ts.c:1853-1951 | The byte-level batch refines the fold of appends; an empty batch is refused |
| TsStream.Stream.DecodesToLog | zephyrdb_ts.c:489-535 | In every valid state the decoded files followed by the decoded buffer are the contents of the log |
| TsStream.Stream.CountAll | zephyrdb_ts.c:2144-2233 | The count computed from file sizes and the fill level alone is the number of samples held, modulo 2^32 |
| TsStream.Stream.ScanWindow | zephyrdb_ts.c:1160-1215 | The directory walk finds the least and greatest parsed segment numbers whatever order the entries come in |
| TsStream.Stream.Scan | zephyrdb_ts.c:1143-1261 | The scan learns window, base and fill level, adopts a single-file stream as segment 0, and reports an invalid newest header |
| TsStream.Stream.Recover | zephyrdb_ts.c:2981-3186 | Recovery cuts the newest file after whole intact records, before the first that is short or not intact, refuses a bad header without changes, and reports the bytes it removed, or one record when they are more |
| TsStream.Stream.RecoverWalk | zephyrdb_ts.c:3101-3150 | The read loop ends after the last of the intact records from the start of the file, and at the read position the reported count is taken from |
| TsStream.Stream.Open | zephyrdb_ts.c:1615-1690 | Opening any crash image fails exactly when the newest file holds part of a header, with an I/O error when it is found by the segment scan, or with CORRUPT when recovery removed more than the limit; otherwise the log is what the files held without the torn tail, and a crash during the opening leaves only images that open to the same |
| TsStream.Stream.Reopen | zephyrdb_ts.c:1615-1733 | Closing and opening a clean stream rebuilds the same window, bases and contents |
| TsStream.Restart | zephyrdb_ts.c:1615-1690 | Crash at any point, open the image: unless the newest file holds part of a header, which only segmented streams can leave and which is an I/O error, the contents are the stored samples less at most the segments past the bound, then a prefix of the buffered ones, every other accepted sample is in the history, and a second crash during the opening loses nothing more |
| TsLife.NextKeeps | zephyrdb_ts.c:1615-1934 | One event of a life, an operation or a crash in it with a restart: the history grows by what was accepted, cut in a crash, and nothing that was stored is cut |
| TsLife.LifeStores | zephyrdb_ts.c:1615-1934 | Over every run of operations with any number of crashes and restarts at any point of them, whatever was in files at one point stays the beginning of what is in files, or was discarded from them, at every later one |
| TsLife.LifeHolds | zephyrdb_ts.c:1615-1934 | Over every such run the contents are the history less the whole discarded segments, the history is everything accepted with some samples left out, no more of them than what was buffered or being appended at the crashes, and without rollover the contents hold everything that was ever stored |
| TsLife.Do | zephyrdb_ts.c:1615-1934 | An operation of the byte-level stream is that event of its life, and every crash during or right after it leaves an image of that event |
| TsLife.CrashAndRestart | zephyrdb_ts.c:1615-1690 | Opening such an image goes on with the life after a crash in that event; a crash during the opening leaves an image of the same event; an image that does not open is an I/O error of a segmented stream |
| TsCursor.Cursor.OpenSegment | zephyrdb_ts.c:812-864 | Opens segment k at a record boundary at the start or end of the walk; a discarded segment is NOT_FOUND |
| TsCursor.Cursor.NextSegment | zephyrdb_ts.c:870-894 | Moves on past vanished segments, strictly closer to the end of the window, and misses no record |
| TsCursor.Cursor.ReadFileRecord | zephyrdb_ts.c:897-959 | Takes exactly the next stored record of the walk, across files; terminates by segments left, then records left |
| TsCursor.Cursor.NextRam | zephyrdb_ts.c:2522-2611 | Takes the next buffered record that matches, in either direction, decoding with the current base |
| TsCursor.Cursor.NextStored | zephyrdb_ts.c:2614-2759 | Takes the next stored record that matches |
| TsCursor.Cursor.Next | zephyrdb_ts.c:2614-2759 | Yields the next match of the whole walk: buffer last when ascending, first when descending |
| TsCursor.Cursor.WalkAll | zephyrdb_ts.c:2614-2759 | A walk from any position terminates and yields exactly the matches among the records still ahead |
| TsCursor.Cursor.Reset | zephyrdb_core.c:578-633 | Rewinds the buffer position and the open file, and nothing else |
| TsCursor.FreshCursorSeesAll | zephyrdb_ts.c:2347-2498 | A newly opened cursor has every record ahead of it, in order or in exactly the reverse order |
| TsCursor.RewoundRepeats | zephyrdb_core.c:578-633 | A reset cursor repeats what the whole walk yields if and only if nothing in the segments it had passed matches the query, and meets every record again if and only if they hold none; in the single-file layout it always repeats |
| TsCursor.WalkResetWalk | zephyrdb_core.c:578-633 | Open, walk any number of steps, reset, walk again: the first walk is that prefix of the matches, the second is exactly the matches from the segment it stood in, and equals the whole walk if and only if the segments passed hold no match |
| TsCursor.ResetMisses | zephyrdb_core.c:578-633 | A concrete stream of two segments whose reset cursor yields the second sample only |
| TsCursor.FilterRev | zephyrdb_ts.c:1399-1423 | Filtering a reversed walk is reversing the filtered walk |
| TsCursor.Walk | zephyrdb_ts.c:2347-2753 | On a quiescent stream an ascending walk yields exactly the records that satisfy the query, in order, and a descending walk their exact reverse; a record is among them if and only if its timestamp is not below the lower bound, not above a non-zero upper bound, and the predicate accepts it |
| TsCursor.AllItemsAreContents | zephyrdb_ts.c:2614-2759 | The samples of all records are the contents of the stream |
| TsCursor.CountBothWays | zephyrdb_ts.c:2144-2308 | The fast count equals the number of samples an unbounded walk yields, below 2^32 |
| TsAggregate.UpdateAccumulates | zephyrdb_ts.c:716-747 | One accumulator step keeps it the minimum, maximum or sum of the values seen |
| TsAggregate.QueryAggregate | zephyrdb_ts.c:2236-2344 | MIN, MAX, SUM and AVG are those of the first min(n, cap) records with timestamps in the window, points is min(n, cap), truncated exactly when n > cap, NOT_FOUND exactly when n = 0; COUNT is uncapped and returns n |
| TsFlush.StepKeepsInv | zephyrdb_ts.c:1425-1479 | Every atomic action of threads, appenders and handler keeps the handshake invariant and never takes a sample back from storage |
| TsFlush.StorageExact | zephyrdb_ts.c:1425-1479 | In every run a drain stores all that was accepted, an append that flushes first stores what its stream had before it, and nothing else stores anything |
| TsFlush.FlushSyncSafe | zephyrdb_ts.c:2043-2127 | For any number of threads and interleavings, a pending flag means the work item is queued or its handler has not finished, and a flush_sync that returns OK had a full drain after its asynchronous step, so every sample accepted before the call is stored |
| TsFlush.OutcomeExact | zephyrdb_ts.c:2084-2128 | At the step at which a call returns, it is OK if and only if no flush is pending then and it did not time out; a caller that woke is told BUSY if and only if one is pending |
| TsFlush.LoneCallReturns | zephyrdb_ts.c:2043-2128 | A call that starts with the handler at rest and no flush pending, and that no other thread interferes with, returns OK whenever it returns without timing out |
| TsFlush.LoneProgress | zephyrdb_ts.c:1425-1479 | Such a caller never waits in vain: its token is there, or the handler can take a step, and every step brings the token nearer |
| TsFlush.UndisturbedServed | zephyrdb_ts.c:2084-2128 | In any run in which no thread takes the token another waits for, no waiting caller is ever left without a token on its way |
| TsFlush.LoneCallerServed | zephyrdb_ts.c:2084-2128 | While flush_sync calls do not overlap, a waiting caller is never left without a token on its way |
| TsFlush.WaitersStrand | zephyrdb_ts.c:2084-2128 | Of two callers that wait at the same time, in any reachable state, some continuation strands either one |
| TsFlush.CompanyStrands | zephyrdb_ts.c:2084-2128 | From every reachable state in which a thread waits, wherever any other thread stands, some continuation strands the one that waits |
| TsFlush.StrandedIffLost | zephyrdb_ts.c:2084-2128 | In every run a caller is stranded at a step if and only if, while it waited, another thread took or cleared the last token due, no flush was submitted since, and the handler has come to rest |
| TsFlush.StrandsIffCompany | zephyrdb_ts.c:2084-2128 | Some interleaving strands a caller if and only if there is more than one thread |
| TsFlush.OverlappingCallsStrand | zephyrdb_ts.c:2084-2128 | With two overlapping calls the binary semaphore serves one and the other waits for nothing: an instance with one stream |
| TsCore.Core.IdleReports | zephyrdb_core.c:144-189 | Between calls no entry owes a report; the bytes in all FLUSH events are the record bytes that the logs of all streams, open and closed, have written to files, and the bytes in all ROLLOVER events are the file bytes of all segments they discarded |
| TsCore.Core.Emit | zephyrdb_core.c:258-293 | Events are emitted only while the lock is free |
| TsCore.Core.TakeDeferred | zephyrdb_ts.c:433-486 | Collects and clears everything recorded under the lock; the stream is named exactly when one alone has something to report |
| TsCore.Core.Unlock | zephyrdb_core.c:144-189 | Releases the lock, then publishes at most one event of each kind with exactly the recorded bytes |
| TsCore.Core.FlushSlot | zephyrdb_ts.c:489-552 | Flushing one entry changes no other stream; what it records grows by exactly the record bytes its log wrote and the file bytes of the segments its log discarded |
| TsCore.Core.Append | zephyrdb_ts.c:1735-1851 | Appending to one stream changes no other entry, block or log; the events that go out are exactly one FLUSH with the bytes its log wrote and one ROLLOVER with the bytes it discarded, under its name, each only when not zero |
| TsCore.Core.AppendBatch | zephyrdb_ts.c:1853-1951 | The same, exactly, for a batch under one hold of the lock |
| TsCore.Core.FlushAll | zephyrdb_ts.c:561-619 | Drains every stream, takes over exactly the bytes all logs wrote, and names the stream when exactly one held samples |
| TsCore.Core.Drain | zephyrdb_ts.c:1425-1479 | The work item flushes every open stream under the lock and afterwards emits exactly one FLUSH and one ROLLOVER with the totals written and discarded, each naming the stream when it was the only one |
| TsCore.FlushName | zephyrdb_ts.c:1425-1479 | The FLUSH of a drain is named after the one stream that held samples, and not named when there was none or more than one |
| TsCore.RolloverName | zephyrdb_ts.c:433-486 | Its ROLLOVER is named after the one stream that discarded segments, likewise |
| TsCore.Core.SlotFind | zephyrdb_ts.c:1484-1500 | Finds the one entry that holds a stream, or shows there is none |
| TsCore.Core.Open | zephyrdb_ts.c:1508-1551 | Opening adds one claim to the saturating count and answers what recovery answers, so a failed open keeps its claim, entry and block; a new entry gets a block no other entry holds; BUSY exactly when a new stream finds no free entry or no free block, changing nothing; other streams keep their logs |
| TsCore.CountExact | zephyrdb_ts.c:1508-1585 | Over any run of opens that succeed, opens that fail in recovery, and closes of either, the count equals the live handles throughout if and only if no more than 255 are ever live, every failed open happens while 255 are, and none of its handles is closed but while none is live |
| TsCore.FailureCounts | zephyrdb_ts.c:1615-1690 | One failed open leaves a count of 1 without a live handle, and still does after one more open and its close |
| TsCore.FailedOpenStrands | zephyrdb_ts.c:1615-1690 | A concrete slab of one block: after a failed open no handle is live, the block stays taken and another stream is BUSY |
| TsCore.FailedOpenUnflushed | zephyrdb_ts.c:1692-1733 | A concrete run: after a failed open, closing the only live handle leaves its sample in the buffer |
| TsCore.Core.Release | zephyrdb_ts.c:1557-1585 | Only the last handle frees the block, keeps what the entry still owes a listener, and wipes the entry |
| TsCore.Core.Close | zephyrdb_ts.c:1692-1733 | Giving up the last claim flushes first, then frees exactly that block, and reports exactly what that flush wrote and discarded; any other close only lowers the count |
| CoreHealth.RunKeeps | zephyrdb_core.c:88-189 | In every interleaving the flag never recovers, the thread that publishes does not hold the lock, and with nothing in hand an event has gone out if and only if the flag is degraded |
| CoreHealth.OnceIffNoOverlap | zephyrdb_core.c:88-189 | Once nothing is under way, at most one HEALTH event has gone out if and only if no two checks overlapped in the run, and one has gone out exactly when the flag is degraded |
| CoreHealth.LockedChecksOnce | zephyrdb_core.c:88-189 | When faults are found under the lock only, no two checks overlap, so at most one HEALTH event ever goes out |
| CoreHealth.OverlappingChecksRepeat | zephyrdb_core.c:88-123 | Two checks outside the lock that overlap both publish: a concrete run |
| KvRecord.HashInputInjective | zephyrdb_kv.c:86-131 | The NUL separator keeps the hashed bytes of different (namespace, key) pairs different |
| KvRecord.RecordId | zephyrdb_kv.c:122-147 | For any hash no key is given slot 0 or the slot of the index |
| KvRecord.SlotsShared | zephyrdb_kv.c:122-147 | Two pairs share a slot if and only if their hashes of namespace, NUL and key fold to the same id, or both fold to 0, 1 or the id of the index |
| KvRecord.CheckIsParse | zephyrdb_kv.c:168-196 | Checking a slot for a pair matches exactly when the slot holds that pair, and yields the offset of its value |
| KvRecord.ParseBuild | zephyrdb_kv.c:149-166 | A built record parses back to its namespace, key and value |
| KvRecord.OldRecordsForeign | zephyrdb_kv.c:86-102 | A record of the first format is never taken for a v2 record |
| KvRecord.IndexRoundTrip | zephyrdb_kv.c:227-328 | A stored index is read back as exactly its ids, as many as the table can hold |
| KvSpec.MatchTakes | zephyrdb_kv.c:168-196 | A slot that matches one pair is a collision for every other pair hashed to it |
| KvSpec.SetIsMapUpdate | zephyrdb_kv.c:580-702 | For any hash a successful set updates exactly its pair, any other outcome changes nothing, and a collision is reported only for a pair without a value |
| KvSpec.SetOutcome | zephyrdb_kv.c:580-702 | NOMEM if and only if the record does not fit the block, COLLISION if and only if it fits and the slot holds a record of another pair, and OK if and only if neither and the slot accepts the write or holds those bytes already |
| KvSpec.DeleteIsMapRemove | zephyrdb_kv.c:783-859 | A delete removes exactly its pair; it is NOT_FOUND exactly for a pair without a value, colliding or not, and OK exactly when the pair has one and its slot accepts the delete |
| KvSpec.SeedResult | zephyrdb_kv.c:979-1040 | The defaults pass never changes a present key and gives an absent one its first row that fits, unless its slot holds another key or refuses writes |
| KvSpec.SeedStatus | zephyrdb_kv.c:979-1040 | The defaults pass is OK if and only if every row names a pair and every selected row has legal names and finds or leaves a value; otherwise it reports the first error it met |
| KvSpec.SeedAgain | zephyrdb_kv.c:979-1040 | The defaults pass is idempotent |
| KvSpec.LookupByPair | zephyrdb_kv.c:704-781 | A pair has a value exactly when its slot holds the record that names it |
| KvSpec.OpsOnData | zephyrdb_kv.c:580-859 | Set and delete neither see nor change the index slot |
| KvSpec.ResetResult | zephyrdb_kv.c:1083-1148 | With a complete index and no undeletable key, a reset leaves its namespace equal to its valid defaults and every other namespace untouched |
| KvIndex.AddEntry | zephyrdb_kv.c:383-428 | Listing a pair ahead of its record makes no stored key unlisted and lists no slot twice |
| KvIndex.DropEntry | zephyrdb_kv.c:430-460 | Dropping an entry unlists its slot only |
| KvIndex.RecordLands | zephyrdb_kv.c:635-682 | Once the data write lands the table lists stored keys only, and a key is unlisted only if it was not listed before the write |
| KvIndex.RecordGoes | zephyrdb_kv.c:832-844 | Deleting a record before its entry leaves at most a stale id, never an unlisted key |
| KvIndex.ListExact | zephyrdb_kv.c:227-305 | A table in order whose ids are on storage lists exactly the stored keys the index knows, with distinct ids |
| KvIndex.IterationExact | zephyrdb_kv.c:886-965 | Iterating a namespace yields each stored key the index knows exactly once, with its value |
| KvIndex.ScanDone | zephyrdb_kv.c:1083-1140 | When the reset scan ends it has cleared every listed key of the namespace but the undeletable ones, and it met an error exactly when there was one |
| KvStore.Store.BackendRead | zephyrdb_kv.c:489-514 | Reports the stored length even beyond the buffer, and an error for a missing record |
| KvStore.Store.BackendWrite | zephyrdb_kv.c:462-487 | An identical write reports zero bytes and writes nothing; every state after a write is a crash state |
| KvStore.Store.IndexStore | zephyrdb_kv.c:307-328 | Writes exactly the ids of the table to the reserved record, in one write |
| KvStore.Store.Load | zephyrdb_kv.c:227-354 | Rebuilds the table as exactly the indexed ids that still have a record and prunes the rest, losing no key |
| KvStore.Store.ReadHeader | zephyrdb_kv.c:246-266 | Accepts an index record exactly when kind, version and length agree with its clamped count |
| KvStore.Store.TrackSet | zephyrdb_kv.c:383-428 | Lists the key before its record is written, and returns false exactly when the key is not listed and the table is full |
| KvStore.Store.Compact | zephyrdb_kv.c:448-455 | The compaction loop removes exactly one entry and keeps the order of the others |
| KvStore.Store.TrackDelete | zephyrdb_kv.c:430-460 | Removes exactly the entry of the pair and rewrites the index |
| KvStore.Store.Set | zephyrdb_kv.c:580-702 | Meets the abstract set, INVAL exactly for an empty or over-long key; every crash state holds the old or the new data and loses no key; after a success the key is listed if and only if it was listed or the table had room; a key goes unindexed exactly when the table is full or the overwrite of a present key fails; a failed write drops its entry |
| KvStore.Store.Get | zephyrdb_kv.c:704-781 | Returns exactly the stored value cut to the capacity, and its full length |
| KvStore.Store.Delete | zephyrdb_kv.c:783-859 | Meets the abstract delete; the record goes before its entry, so every crash state loses no key |
| KvStore.Store.IterNext | zephyrdb_kv.c:886-965 | A step yields a listed key with its current value, steps over keys that rival threads deleted between lookup and read, reports NOMEM for a key that does not fit, and terminates; for any number of rival deletes, what it yields and leaves is exactly what was ahead and is still stored but for the keys the deletes moved to before the position, so it misses nothing if and only if there are none |
| KvIteration.DeleteWhileIterating | zephyrdb_kv.c:430-460 | A delete while an iteration stands at a position makes it miss a stored key if and only if the deleted entry lies before the position and the entry at the position is of the namespace, and then that one only |
| KvIteration.OverwriteWhileIterating | zephyrdb_kv.c:635-682 | A failed overwrite, which drops the entry of a stored key, makes an iteration miss a stored key if and only if the gap moves one to before the position, or the key itself is of the namespace and still ahead |
| KvStore.Store.DefaultsApplyNs | zephyrdb_kv.c:979-1040 | Meets the abstract defaults pass and reports the first error |
| KvStore.Store.NextKeyInNs | zephyrdb_kv.c:1054-1081 | Finds the first entry of the namespace at or after a position |
| KvStore.Store.ClearNamespace | zephyrdb_kv.c:1104-1139 | The scan terminates by entries minus position although deletes shorten the table, and clears exactly the deletable listed keys of the namespace |
| KvStore.Store.ResetNamespace | zephyrdb_kv.c:1083-1148 | Meets the abstract reset, and is OK exactly when every listed key could be deleted and every default row succeeded |
| KvStore.Restart | zephyrdb_kv.c:227-354 | From any crash state of any reachable store, after a restart every value is what the state held, and the table lists a stored key if and only if the index in that state knows it; only slots missed by a full table or a failed overwrite are unknown |
| DocCodec.SetIsMapUpdate | zephyrdb_doc.c:1183-1346 | A setter changes the value of its name only, keeps the document storable, changes nothing when it fails, and is NOMEM exactly when an absent name meets a full document |
| DocCodec.SetOutcome | zephyrdb_doc.c:1183-1346 | A setter is INVAL if and only if its name is empty or too long or its value over the limit, and OK if and only if the field is legal and the name is present or there is room |
| DocCodec.SetPlaces | zephyrdb_doc.c:1183-1249 | A present name keeps its position and every other field its own; an absent one comes last |
| DocCodec.ParseFieldBytes | zephyrdb_doc.c:222-359 | A serialized field of any type is read back whatever follows it |
| DocCodec.ParseFieldCut | zephyrdb_doc.c:222-359 | No strict prefix of a serialized field is taken for a field |
| DocCodec.UnknownType | zephyrdb_doc.c:222-359 | A field of a type this build does not know is UNSUPPORTED |
| DocCodec.OverLimits | zephyrdb_doc.c:222-359 | A field with a name or value over the limits of this build is CORRUPT |
| DocCodec.ParseFieldsBytes | zephyrdb_doc.c:221-364 | Reading the fields back appends them in order and folds exactly their bytes into the digest |
| DocCodec.RoundTrip | zephyrdb_doc.c:162-388 | Every document built through the setters is read back as it was saved: fields, order and timestamps |
| DocCodec.OpensIffDigest | zephyrdb_doc.c:162-388 | A file of either version opens, to exactly what was stored, if and only if its digest is right: over the header prefix in version 1, over the prefix and every field byte in version 2; any other is CORRUPT |
| DocCodec.TooManyFields | zephyrdb_doc.c:162-388 | A document with more fields than this build holds is NOMEM |
| DocCodec.TruncationRejected | zephyrdb_doc.c:162-388 | No strict prefix of a saved document parses, for any checksum function |
| DocCodec.ParseSound | zephyrdb_doc.c:162-388 | Any file that opens holds a valid document, and in version 2 its stored digest is that of the header prefix and the field bytes read |
| DocDisk.SaveAtomic | zephyrdb_doc.c:943-1073 | From a guarded state, a crash anywhere in a save reopens to exactly the old result or exactly the new document |
| DocDisk.AtomicIffGuarded | zephyrdb_doc.c:943-1073 | Old-or-new at every crash point holds if and only if there is a live file or the staging file does not parse |
| DocDisk.FailedSave | zephyrdb_doc.c:1008-1073 | A save that reports success stored the new document; one that fails and removes its staging file leaves the document as it was if and only if the staging file was never opened, or the save was guarded and did not lose the live file to a failed retry |
| DocDisk.SaveSucceeds | zephyrdb_doc.c:1008-1073 | A save is OK if and only if every call it needs succeeds; unlinking the live file and retrying are needed only where the rename is refused |
| DocDisk.ShortWrite | zephyrdb_doc.c:1008-1073 | A save whose write fails reports its error and leaves exactly the bytes taken, or no staging file when that is removed |
| DocDisk.SavedOldOrNew | zephyrdb_doc.c:1008-1073 | From a guarded state, whatever calls fail, a save leaves the old result or the new document if and only if it does not lose the live file, and losing it leaves NOT_FOUND |
| DocDisk.AtomicIffOverwrites | zephyrdb_doc.c:1008-1073 | Old-or-new under every crash and every combination of failing calls holds if and only if the save is guarded and there is no live file that the file system refuses to replace |
| DocDisk.StaysGuarded | zephyrdb_doc.c:398-465 | Once a document has a live file, every save that is cut short or fails without losing it, and the reopen after it, leaves it with one |
| DocDisk.OthersUntouched | zephyrdb_doc.c:943-1073 | A save, finished, failed or cut short, never changes what another document opens to |
| DocDisk.DeleteCrash | zephyrdb_doc.c:1131-1140 | A delete cut between its unlinks reopens to the old document or nothing exactly when the staging file is absent, unreadable or a copy of the live one |
| DocDisk.DeleteHolds | zephyrdb_doc.c:1131-1140 | A delete is NOT_FOUND without a live file and otherwise what unlinking it answers; when it succeeds, no later open finds the document if and only if its staging file went too or does not parse; when it fails, the document opens as before |
| DocStore.Sink.Emit | zephyrdb_doc.c:862-941 | A digest sink and a file sink receive the same bytes, those of the serialized fields; a file sink stops with its error exactly when they do not fit, holding the part that did, and every cut of that is a possible crash |
| DocStore.Reader.ReadExact | zephyrdb_doc.c:87-105 | A short read is corruption; otherwise exactly the bytes returned are folded into the digest |
| DocStore.Doc.FindOrCreate | zephyrdb_doc.c:1183-1234 | Finds a name where it stands, retyping it on demand, or appends it |
| DocStore.Doc.SetI64 | zephyrdb_doc.c:1236-1249 | Sets an integer field as the abstract setter does |
| DocStore.Doc.SetF64 | zephyrdb_doc.c:1251-1264 | Sets a double field, bit for bit |
| DocStore.Doc.SetString | zephyrdb_doc.c:1266-1297 | Sets a string field; one over the limit is refused |
| DocStore.Doc.SetBool | zephyrdb_doc.c:1299-1312 | Sets a boolean field |
| DocStore.Doc.SetBytes | zephyrdb_doc.c:1314-1346 | Sets a bytes field, empty ones included; one over the limit is refused |
| DocStore.Doc.ParseOne | zephyrdb_doc.c:222-359 | Reads one field in chunks and stores it through the setter of its type, as the abstract parser does |
| DocStore.Doc.ParseDocument | zephyrdb_doc.c:162-388 | The chunked reader accepts exactly the files the abstract parser accepts, with the same result and the same errors |
| DocStore.Doc.Publish | zephyrdb_doc.c:1041-1050 | The rename, or unlink and retry where it is refused because the live file exists, ends with the staged bytes live, or fails and removes the staging file; only the state without a live file lies in between |
| DocStore.Doc.Save | zephyrdb_doc.c:943-1073 | For every combination of failing calls, returns and leaves exactly what the save is specified to, with a digest that covers the emitted fields; every crash state is one of the save images |
| DocStore.Open | zephyrdb_doc.c:398-465 | Opens the live file, or promotes a complete staging file when there is none; on failure the handle is closed and empty |
| DocStore.Delete | zephyrdb_doc.c:1090-1151 | Removes both files, whichever unlink may fail; NOT_FOUND without a live file, otherwise what unlinking it answers; with both removed no later open finds the document |
| DocStore.SaveCrashOpen | zephyrdb_doc.c:398-1073 | End to end: save with any calls failing, crash at any point, open again gives the old result or the new document, unless the retry lost the live file; other documents open as before |

## Left out

- TsStream.Stream.Open: assumes the newest segment number is below 10000 and every file of the stream is in the build's format; mixed formats are not modelled, because an append computes its record size before a flush that may roll into a segment of another format.
- TsStream.Stream.Append: a slot is modelled once its segments are scanned, as opening with automatic recovery leaves it; the fallback to the first format before that is not modelled.
- TsStream.Stream.Recover: the reported byte count follows the read position, so it is a lower bound for damage longer than one record, and the fill level is left as the scan took it.
- TsCursor.Walk: is about a stream that does not change during the walk; a cursor over segments discarded since it was opened is covered step by step by `TsCursor.Cursor.NextSegment`.
- TsCursor.CountBothWays: compares counts below 2^32, where the source's counter does not wrap.
- TsAggregate.QueryAggregate: values are reals; floating-point rounding is not modelled.
- TsFlush.FlushSyncSafe: assumes no write or submit error; the source does not carry the handler's write error to the caller.
- TsStream.Stream.Reopen: assumes, like Open, that the newest segment number stays below 10000.
- TsCore.Core.Append: works on the abstract log of a stream, which `TsStream` refines to bytes; what recovery does to the log inside an open, a stream whose segments stay unreadable after a failed open, and unlink errors are not part of the table.
- TsLog.RetentionBounds: is about crash-free runs; its lower bound in bytes is for self-describing records, as compact ones may roll early on a timestamp.
- KvStore.Store.Set: backend failures are a fixed set of slots that refuse writes and deletes with an I/O error; index writes succeed and an I/O block is always available.
- KvStore.Store.IterNext: the other threads delete keys, one between each lookup and read; their sets are not modelled there, and what a failed one does is stated for the table alone.
- TsLife.CrashAndRestart: a life ends with an image that does not open, and segment numbers stay below 10000.
- KvStore.Restart: assumes v2 records were written by this store, in their own slots and no longer than an I/O block; foreign bytes may be anything else.
- DocStore.Doc.Save: a failing close loses no bytes that were written, and a call that fails otherwise changes nothing.
- DocStore.Open: reads and the rename that promotes a staging file do not fail.
- DocStore.Doc.SetF64: a double is its 64 bits.
- CoreHealth.RunKeeps: the lock is taken once per thread at a time; nested holds of the recursive mutex are not modelled.
- The flash-circular-buffer backend, which delegates to code that is not part of this model.
- NVS, ZMS and LittleFS internals, mount, deinit and directory creation.
- Path building and name parsing beyond the four-digit segment number; a path is a structured key, and no stream's name aliases another's segment files.
- The error-detection strength of CRC-32 and the mixing of FNV-1a.
- Document queries and filters, getters, listing and FlatBuffers export.
- The watermark side file, statistics, status and health strings, shell commands and the zbus adapter.
- Persisting the key index switched off, which makes iteration session-only.
- Lock acquisition failures, heap and slab exhaustion, and yielding in long scans.
