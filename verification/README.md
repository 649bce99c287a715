# Models of a storage engine, a proxy, a word count and a game rule

This project models the hard parts of four programs of the repository and proves what they are for.

**The storage engine (`redisdb/db`)** is a log-structured merge tree in layers, and each layer is proved to
refine a simple specification.

- `ordering.dfy`, `lists.dfy`, `cursors.dfy`: comparators as total orders, and the specification that every iterator has to
  meet: a cursor over a sorted list, with the trace of what a caller sees after each operation of a run.
- `merger.dfy`: n children behind one cursor, in both directions, with the turns between them.
- `versions.dfy`, `dbiter.dfy`: entries with sequence numbers, what a snapshot shows of them, and the iterator
  that shows it forward and backward.
- `twolevel.dfy`: an index of blocks and the blocks it points to behind one cursor.
- `tableformat.dfy`, `tables.dfy`, `tableroundtrip.dfy`, `tablelookup.dfy`: table files as bytes, built with short
  separators and any failures, opened, iterated and looked up.
- `reads.dfy`, `readrace.dfy`: point lookups and iterators agree; lookups while memory is written out.
- `bytes.dfy`, `coding.dfy`, `keyformat.dfy`: bytes, variable-length numbers, internal keys and their order.
- `blockformat.dfy`, `blockbuilder.dfy`, `blockreader.dfy`, `blockroundtrip.dfy`: prefix-compressed blocks with
  restart points, written and read.
- `crc32c.dfy`: the four-way strided checksum against the bitwise definition of CRC32C (section 12.1 of
  RFC 3720).
- `logformat.dfy`, `logwriter.dfy`, `logreader.dfy`, `logtheory.dfy`, `logroundtrip.dfy`: the write-ahead log
  as bytes, its writer, its reader over arbitrary files, and what comes back after a cut at any byte.
- `memtable.dfy`: the sorted table of encoded rows and lookup at a snapshot.
- `writequeue.dfy`, `groupcommit.dfy`, `groupanswers.dfy`: many writers, one queue, one leader at a time, as
  events between taking and releasing the mutex; the theorems hold over every sequence of events, that is every interleaving.
- `compaction.dfy`: which entries a compaction may drop.
- `logdamage.dfy`, `logintegrity.dfy`: what the reader makes of a log after an append that failed, and of any file.
- `writebatch.dfy`, `recovery.dfy`: batches as bytes, and replay of a cut log.
- `logfiles.dfy`, `crashsafety.dfy`, `lostwrite.dfy`: the protocol with the bytes of its log files, the promise made
  to a writer that asked for a sync, and a run that breaks it.

**The Redis proxy (`redisproxy`)**, in `proxy.dfy`: one client's requests go out to several backends whose
replies come back in any order; the client gets them in request order, with the replies of each fan-out merged.
In `multibulk.dfy` its requests are parsed as they arrive, by a parser that stops anywhere in a request and
resumes with the next chunk.

**The external word count (`mapreduce`)**, in `wordcount.dfy`: counting in segments, merging them by word and
then by number, and a variant that shards by hash; both from the input files to the output.

**The winning-hand search (`mahjong`)**, in `mahjong.dfy`: a backtracking search that changes the hand in place
is proved to be a decision procedure, and its limit of 127 tiles is made exact.

Objects whose methods update fields are classes here, their methods proved against functions of the old state;
values are datatypes. Time, files, sockets, sizes in bytes and the decisions that depend on them are parameters
that may take any value: when a log is cut, when a table is full, when memory is written out, whether a write, a
sync or an insertion fails, and how many bytes of a failed write reach the file.

Where the code departs from its comments or its evident purpose, the code is followed:

- `dbiter.cc:18-19` says that in reverse the internal iterator is just before all entries of the current key. It
  is before all of them, but not always just before: entries of earlier keys that the snapshot cannot see may lie
  in between. `DBIter.DirectionRule` says exactly when.
- `db.cc:649-671` refuses further writes after a failed sync but not after a failed append, although the writer
  then goes on from a wrong offset. `LostWrite.AcknowledgedAndLost` is a run that loses an acknowledged synchronous
  write; `CrashSafety.AcknowledgedSurvives` holds as long as no append to the file had failed, and
  `CrashSafety.NextRecordSurvivesIff` says exactly when the next record is still found.
- `logreader.h:71-74` promises that a reader with an initial offset skips the rest of a record begun before it
  silently. `resyncing` is cleared by the first record dropped before the offset, so such a record can be
  reported as a corruption: `LogTheory.OffsetIsSilentIff` says exactly when.
- `mahjong/main.cc:13` counts tiles in a signed byte, which 128 tiles make negative: `Mahjong.TooManyTiles`.
- `proxysession.cc:228` refuses a request with an empty argument, which is well-formed, as a protocol error:
  `Multibulk.Feed` says where a stream breaks.
- `proxysession.cc:246-253` moves every character of a command that starts with a capital, also those that are none:
  `Multibulk.MixedCase`.
- `block.cc:35` adds two lengths in 32 bits: `BlockFormat.DecodedFitsIff`.
- `proxysession.cc:182` compares numbers of which one wraps around when fewer than two characters are left, so
  that characters behind the buffer are read: `Multibulk.PartOfLine` says exactly when for a line, and
  `Multibulk.Feed` for a stream.
- `tablebuilder.cc:123-132` overwrites the status of a data block's append with that of the flush after it, which finds
  nothing to write. `TableRoundTrip.LoseBlock` finishes a table without its only row; `TableRoundTrip.IsTableIff`
  says when a finished table is whole.
- `redisproxy.cc:484-489` starts a client's numbers again when a backend is missing, while replies under the old ones
  are still in flight: `Proxy.StaleReply`.
- `redisproxy.cc:618-640` answers a del with the first reply other than 1 instead of the sum: `Proxy.DelStops`.
- `block.cc:50` calls the restart index the one in which the current entry falls. After stepping forward onto a
  restart point it is the one before: `BlockReading.OneBefore`. After stepping back it is the entry's own.
- `db.cc:745-777` keeps the status of a table write in a variable of an inner block and returns another one that is
  never set: a table that cannot be written takes its rows with it, and recovery succeeds. `Recovery.HeldIffKept`
  says exactly when all rows are held; `Recovery.RecoverNothing` and `LostWrite.AcknowledgedAndNotSaved` lose all of
  them.
- `db.cc:1297` asks an iterator for its key without asking whether it has one, so that a log of only empty batches
  aborts its own recovery: `Recovery.EmptyBatchesAbort`.
- `db.cc:716-728` reads the memory tables after releasing the mutex, with the version taken before.
  `ReadRaces.SeesAllIff` says exactly when a lookup misses one of them, and `ReadRaces.CommittedButAbsent` is a run
  in which a committed key is answered as absent.

## Model

| member | source | states |
|---|---|---|
| Cursors.LowerBoundIs | redisdb/db/iterator.h:30-52 | in a sorted list there is exactly one position with everything before it below a target and everything from it on not below: where every Seek must land |
| Merger.UnionExists | redisdb/db/merger.cc:6-15 | children that are sorted and share no key have a sorted union |
| Merger.RankingExists | redisdb/db/merger.cc:155-185 | every entry of the children has one rank in the union and every rank one child and index, which is what lets the smallest and largest child be compared by rank |
| Merger.MergingIterator.constructor | redisdb/db/merger.cc:6-15 | a new iterator is not valid, and its view is the sorted union of its children |
| Merger.MergingIterator.FindSmallest | redisdb/db/merger.cc:155-169 | the child chosen is valid and its entry has the least rank of all valid children; none is chosen only if no child is valid |
| Merger.MergingIterator.FindLargest | redisdb/db/merger.cc:171-185 | the child chosen is valid and its entry has the greatest rank of all valid children; none is chosen only if no child is valid |
| Merger.MergingIterator.SeekToFirst | redisdb/db/merger.cc:25-32 | goes to the first entry of the sorted union from any state |
| Merger.MergingIterator.SeekToLast | redisdb/db/merger.cc:34-41 | goes to the last entry of the sorted union from any state |
| Merger.MergingIterator.Seek | redisdb/db/merger.cc:43-50 | goes to the first entry of the sorted union not below the target |
| Merger.MergingIterator.SwitchForward | redisdb/db/merger.cc:60-72 | turning forward leaves every other child after the current key and keeps the position |
| Merger.MergingIterator.SwitchReverse | redisdb/db/merger.cc:86-102 | turning backward leaves every other child just before the current key and keeps the position |
| Merger.MergingIterator.Next | redisdb/db/merger.cc:52-76 | one step forward in the sorted union, in either direction of travel before |
| Merger.MergingIterator.Prev | redisdb/db/merger.cc:78-106 | one step back in the sorted union, in either direction of travel before |
| Merger.MergingIterator.Run | redisdb/db/merger.cc:21-116 | every mixed run of operations shows, step by step, what a plain cursor over the sorted union shows |
| Versions.InternalOrderIsTotal | redisdb/db/dbformat.cc:117-135 | user key up, then sequence and type down, is a total order whenever the user order is one |
| Versions.ViewIsLookup | redisdb/db/dbiter.cc:164-196 | the pairs a snapshot shows are exactly those that looking up the key at the snapshot finds |
| Versions.ViewIsSorted | redisdb/db/dbiter.cc:164-196 | a snapshot shows each user key at most once, in increasing order |
| DbIter.DBIter.FindNextUserEntry | redisdb/db/dbiter.cc:164-196 | the forward scan stops at the next entry the snapshot shows, and ends exactly when there is none |
| DbIter.DBIter.ScanBack | redisdb/db/dbiter.cc:227-256 | the backward scan keeps the newest visible entry of the key it passed last, and stops only in front of an earlier key |
| DbIter.DBIter.FindPrevUserEntry | redisdb/db/dbiter.cc:224-268 | the backward scan lands on the previous entry the snapshot shows, and ends exactly when there is none |
| DbIter.DBIter.SeekToFirst | redisdb/db/dbiter.cc:284-294 | goes to the first pair the snapshot shows |
| DbIter.DBIter.SeekToLast | redisdb/db/dbiter.cc:296-301 | goes to the last pair the snapshot shows |
| DbIter.DBIter.Seek | redisdb/db/dbiter.cc:270-282 | goes to the first pair the snapshot shows whose key is not below the target |
| DbIter.DBIter.Next | redisdb/db/dbiter.cc:126-162 | one step forward in what the snapshot shows, also right after moving backward |
| DbIter.DBIter.Prev | redisdb/db/dbiter.cc:198-222 | one step back in what the snapshot shows, also right after moving forward |
| DbIter.DBIter.Run | redisdb/db/dbiter.cc:126-301 | every mixed run of operations shows what a cursor over the snapshot's sorted pairs shows, and keeps the class invariant that the direction rules follow from |
| DbIter.DBIter.DirectionRule | redisdb/db/dbiter.cc:15-23 | the direction rules of the comments: forward, the internal iterator is at the entry shown; in reverse, it is before all entries of the key shown, and just before them if and only if the entry in front of them is visible or there is none |
| DbIter.InvisibleInFront | redisdb/db/dbiter.cc:15-23 | two entries and a snapshot for which, in reverse, the internal iterator is before all entries of the key shown but not just before them |
| TwoLevel.SeekInBlock | redisdb/db/iterator.h:186-193 | a seek in the index and then in the block it points to finds the lower bound in the whole, also when that block holds only smaller keys |
| TwoLevel.TwoLevelIterator.InitDataBlock | redisdb/db/iterator.h:295-310 | afterwards the data iterator is over the block the index points to, reused or opened, and there is none past the end |
| TwoLevel.TwoLevelIterator.SkipEmptyDataBlocksForward | redisdb/db/iterator.h:258-271 | from the end of a block, goes to the next entry of the whole over any number of empty blocks |
| TwoLevel.TwoLevelIterator.SkipEmptyDataBlocksBackward | redisdb/db/iterator.h:273-286 | from before a block, goes to the previous entry of the whole over any number of empty blocks |
| TwoLevel.TwoLevelIterator.Seek | redisdb/db/iterator.h:186-193 | goes to the first entry of the concatenated blocks not below the target |
| TwoLevel.TwoLevelIterator.SeekToFirst | redisdb/db/iterator.h:195-202 | goes to the first entry of the concatenated blocks |
| TwoLevel.TwoLevelIterator.SeekToLast | redisdb/db/iterator.h:204-211 | goes to the last entry of the concatenated blocks |
| TwoLevel.TwoLevelIterator.Next | redisdb/db/iterator.h:213-217 | one step forward in the concatenated blocks |
| TwoLevel.TwoLevelIterator.Prev | redisdb/db/iterator.h:219-223 | one step back in the concatenated blocks |
| TwoLevel.TwoLevelIterator.Run | redisdb/db/iterator.h:174-320 | with separating index keys, every mixed run of operations shows what a cursor over the concatenated blocks shows |
| Reads.SearchIsFind | redisdb/db/db.cc:716-728 | asking the memory tables and tables one after the other, newest first, finds what the sorted union of them all holds |
| Reads.IteratorAgreesWithGet | redisdb/db/db.cc:82-106 | an iterator over the merged tables shows a key with a value exactly if a lookup at that snapshot returns the value |
| Reads.Get | redisdb/db/db.cc:716-728 | asked of parts that stay as they are, the first one that knows the key, value or deletion, answers |
| ReadRaces.Get | redisdb/db/db.cc:699-734 | the lookup as it runs: the tables as they were when the version was taken, the memory table as it is later, the one being written out as it is later still |
| ReadRaces.SeesAllIff | redisdb/db/db.cc:712-728 | while other threads write, start new memory tables and finish writing one out, a lookup reads every memory table that was there when it took its version if and only if none has been written out by its second read, or there was one only and it is still the newest at the first |
| ReadRaces.InTimeIsRight | redisdb/db/db.cc:712-728 | a lookup in time answers what the database held when it took its snapshot, whatever was written since |
| ReadRaces.MissedIsWrong | redisdb/db/db.cc:712-728 | a lookup that is not takes a key that only the missed table holds to be absent |
| ReadRaces.LookupInRun | redisdb/db/db.cc:699-734 | over every run: right if no memory table is finished between taking the version and the second read |
| ReadRaces.CommittedButAbsent | redisdb/db/db.cc:1249-1272 | a run of one such finish in which a committed key is answered as absent, though the database holds it before and after |
| Crc32c.UnmaskMask | redisdb/db/crc32c.h:25-34 | unmasking undoes masking for every checksum |
| Crc32c.ExtendAppend | redisdb/db/crc32c.cc:254-350 | the checksum of a concatenation is the checksum of its second part extended from that of its first, so the writer's precomputed type checksum gives what the reader computes over type and payload |
| Crc32c.TableStep | redisdb/db/crc32c.cc:260-264 | one step through a table of the 256 byte remainders is eight steps of the bitwise remainder of the polynomial; that it is the Castagnoli polynomial (section 12.1 of RFC 3720) is `Crc32c.ByteTableIs` |
| Crc32c.ByteTableIs | redisdb/db/crc32c.cc:8-52 | the table entries at 1, 2, 4, ..., 128 are those of the program, which determine the other entries: entry b is the exclusive or of the entries at the bits of b |
| Crc32c.StrideTableIs | redisdb/db/crc32c.cc:54-232 | the same for the four stride tables |
| Crc32c.ChecksumOfZeroes | redisdb/db/crc32c.cc:254-350 | the checksum of 32 zero bytes is 0x8a9136aa, as in section B.4 of RFC 3720 |
| Crc32c.MaskOfBits | redisdb/db/crc32c.h:25-34 | the mask rotates right by 15 bits and adds 0xa282ead8 |
| Crc32c.StrideIs | redisdb/db/crc32c.cc:267-273 | four look-ups in the stride tables advance a word by sixteen zero bytes |
| Crc32c.StepOne | redisdb/db/crc32c.cc:321-331 | taking one word into the first partial remainder and rotating the four keeps what they stand for together |
| Crc32c.StepFour | redisdb/db/crc32c.cc:276-283 | taking sixteen bytes into the four partial remainders keeps what they stand for together |
| Crc32c.Step4W | redisdb/db/crc32c.cc:286-293 | four table steps over a loaded word advance it by its own four bytes |
| Crc32c.Recombine | redisdb/db/crc32c.cc:333-338 | folding the four partial remainders gives the remainder they stand for |
| Crc32c.Swaths | redisdb/db/crc32c.cc:304-339 | the interleaved part of the loop computes the bytewise remainder of all the bytes it consumes |
| Crc32c.StridedExtend | redisdb/db/crc32c.cc:254-350 | for every buffer, length and alignment the strided algorithm returns the bytewise checksum |
| Writer.WritableFile.Append | redisdb/db/env.h:340-366 | what fits in the buffer is buffered and cannot fail; otherwise what reaches the file is the data so far, or on failure a first part of it, and the buffer is empty |
| Writer.WritableFile.Flush | redisdb/db/env.h:380-408 | writes the buffer, or on failure a first part of it of any length, and empties the buffer in either case |
| Writer.LogWriter.EmitPhysicalRecord | redisdb/db/logwriter.cc:74-99 | writes one physical record (masked checksum of type and payload, length, type, payload) with the trailer before it, or any first part of them and reports the failure; the block offset advances in either case |
| Writer.LogWriter.PadBlock | redisdb/db/logwriter.cc:33-43 | buffers the zeroes that fill a block with no room for a header, and nothing else |
| Writer.LogWriter.EmitFragment | redisdb/db/logwriter.cc:33-69 | one turn writes as much of the record as fits in the block, under the right one of the four types, or fails with any first part of that |
| Writer.LogWriter.AddRecord | redisdb/db/logwriter.cc:24-72 | writes the fragments of one record up to the first that fails, of which any first part may reach the file, and goes on from where it then believes the file ends |
| LogFormat.AttemptIs | redisdb/db/logwriter.cc:24-72 | an append that succeeds has written exactly the record; one that fails a first part of it, and the writer then believes the file to end there or later |
| Reader.LogReader.SkipToInitialBlock | redisdb/db/logreader.cc:32-52 | starts at the first block that can hold a record at or after the initial offset |
| Reader.LogReader.ParseHeader | redisdb/db/logreader.cc:217-271 | the physical record at the front of the buffer, or the drop that is reported for it: bad length, bad checksum, zero type, before the offset |
| Reader.LogReader.ReadPhysicalRecord | redisdb/db/logreader.cc:188-272 | returns what the file holds at the position read, for any file contents, and consumes exactly that |
| Reader.LogReader.Assemble | redisdb/db/logreader.cc:69-169 | each physical record changes the record under assembly, the resynchronization and the reports as the reading of the whole file prescribes |
| Reader.LogReader.ReadRecord | redisdb/db/logreader.cc:54-171 | for any file at all: returns the first of the records that lie ahead with its offset, having reported exactly what was dropped before it, or fails when there is none, and then for good unless the file holds the type that stands for its end |
| LogTheory.ReadBack | redisdb/db/logreader.cc:54-171 | from a log cut at any byte and with any initial offset, exactly the records that start at or after the offset and lie whole in the cut log are returned |
| LogTheory.ReadBackPrefix | redisdb/db/logreader.cc:54-171 | a log cut at any byte reads back as the records wholly before the cut, with no corruption reported |
| LogTheory.RoundTrip | redisdb/db/logwriter.cc:24-99 | a complete log reads back as the records written, with no corruption reported |
| LogTheory.TruncationIsSilent | redisdb/db/logreader.cc:188-272 | without an initial offset no cut is ever taken for a corruption |
| LogTheory.OffsetIsSilentIff | redisdb/db/logreader.cc:69-169 | a log cut at any byte is read from an initial offset without reports if and only if the offset starts its block or no record begun before it goes on into the next block with a fragment that is whole before the cut |
| LogTheory.SpuriousReport | redisdb/db/logreader.cc:69-169 | an intact log and an offset for which a corruption is reported all the same |
| LogRoundTrip.WriteLog | redisdb/db/logwriter.cc:24-72 | writing a list of records one by one gives the bytes of the whole list |
| LogRoundTrip.ReadAll | redisdb/db/logreader.cc:54-171 | from any initial offset, reading until there is no record returns all records of the file from there on and leaves all its reports |
| LogRoundTrip.WriteCrashRead | redisdb/db/logwriter.cc:24-99 | write any records, cut the log at any byte, read from any offset: exactly the records from the offset on that are whole before the cut, and no report exactly when no record straddles the end of the offset's block with a whole fragment behind it |
| LogDamage.ScanWhole | redisdb/db/logreader.cc:54-171 | whole records at the front of a file are returned without a report, whatever follows them |
| LogDamage.AfterAttempt | redisdb/db/logwriter.cc:66-71 | a reader in the middle of a record whose append failed, whatever the fragment and the bytes kept of it, returns the record appended next exactly when the failure was harmless |
| LogDamage.AfterLead | redisdb/db/logreader.cc:217-248 | a header cut after five bytes, with the zeroes of the next trailer for its length and type: what the reader makes of it, according to whether the checksums agree |
| LogDamage.LedOn | redisdb/db/logreader.cc:217-248 | such a header is passed over, and the next record read, exactly when the checksums agree or are not checked and the record fits in what is left |
| LogDamage.ScanShifted | redisdb/db/logreader.cc:188-272 | a record written for a later position than it lies at is returned exactly when all of it fits in the rest of the reader's block or the two positions are a block apart |
| LogDamage.NextRecordReads | redisdb/db/logwriter.cc:89-98 | whole records, an append that failed after any number of bytes, a record, and anything: that record is returned from where it lies if and only if of the failed fragment everything was written, or no more than its trailer, complete with the one before the record, and the record still fits in the block, or just five bytes of a header that the zeroes behind it complete |
| LogDamage.SilentLoss | redisdb/db/logreader.cc:224-236 | if a failed append left its header and less follows than the record lacks, everything after it is lost and nothing is reported |
| LogIntegrity.ShortRecord | redisdb/db/logwriter.cc:74-99 | a record of up to 32761 bytes at the start of a block, byte by byte: masked checksum of type and record, length with the low byte first, type 1, the record |
| LogIntegrity.LongRecord | redisdb/db/logwriter.cc:24-72 | a longer one fills its block of 32768 bytes under type 2 and goes on in the next |
| LogIntegrity.RestOfRecord | redisdb/db/logwriter.cc:24-72 | the rest of a record has type 4 if it fits in its block, and type 3 otherwise |
| LogIntegrity.ReturnedIsWritten | redisdb/db/logreader.cc:54-171 | for any file whatsoever: every record returned lies in it intact, at or after the initial offset, as one part of type 1, or as parts of types 2, 3, ..., 3, 4 one behind the other, each whole in its block and under the right checksum |
| LogIntegrity.DamageIsReported | redisdb/db/logreader.cc:217-256 | a length that does not fit its block, or a checksum that is not that of the bytes behind it, is reported with all bytes up to the end of the block, and reading goes on in the next block |
| LogIntegrity.UnfinishedIsReported | redisdb/db/logreader.cc:79-162 | if a record under assembly is followed by anything but its next part or the end of the file, the bytes assembled are reported |
| Coding.EncodeVarint32 | redisdb/db/coding.cc:43-73 | the unrolled writer produces the seven-bit encoding, of at most five bytes |
| Coding.EncodeVarint64 | redisdb/db/coding.cc:81-90 | the loop produces the same encoding for any number |
| Coding.ReadVarint32 | redisdb/db/coding.cc:112-128 | the shift loop reads what the encoding means modulo 2 to the 32, within five bytes and before the limit, or fails |
| Coding.Varint32RoundTrip | redisdb/db/coding.cc:43-128 | every 32-bit number reads back from where it was written, and reading stops right after it |
| Coding.Varint64RoundTrip | redisdb/db/coding.cc:81-159 | every 64-bit number reads back from where it was written, and reading stops right after it |
| Coding.VarintDigit | redisdb/db/coding.cc:43-90 | byte i of a varint is digit i to the base of 128, with the top bit set on all but the last, which is not 0 unless it is the only one |
| Coding.LengthPrefixedRoundTrip | redisdb/db/coding.cc:98-101 | every string shorter than 4 GiB reads back from its length-prefixed form |
| Coding.FixedRoundTrip | redisdb/db/coding.cc:3-29 | a number that fits k bytes reads back from its k-byte image |
| Coding.FixedDigit | redisdb/db/coding.cc:3-29 | byte i of a fixed-length number is digit i to the base of 256 |
| KeyFormat.BytewiseIsTotal | redisdb/db/dbformat.h:144-146 | comparing strings as unsigned bytes is a total order |
| KeyFormat.FindShortestSeparator | redisdb/db/dbformat.cc:38-67 | for start below limit the result is in [start, limit); it differs from start exactly if the first differing byte leaves room, and then ends with that byte raised by one and lies strictly between, so the assertion holds |
| KeyFormat.FindShortSuccessor | redisdb/db/dbformat.cc:73-84 | the result is not below the key nor longer; it ends with the first byte that is not 255, raised by one, and is the key itself only if every byte is 255 |
| KeyFormat.InternalKeyRoundTrip | redisdb/db/dbformat.cc:11-25 | parsing inverts appending for every key, and every string that parses is the appending of its parse |
| KeyFormat.KeyBytes | redisdb/db/dbformat.cc:11-25 | an internal key, byte by byte: the user key, 1 for a value and 0 for a deletion, and the sequence in seven bytes |
| KeyFormat.CompareAgrees | redisdb/db/dbformat.cc:117-135 | comparing the bytes of two internal keys agrees with comparing user key, sequence and type |
| KeyFormat.KeyOrderIsTotal | redisdb/db/dbformat.cc:117-135 | comparing internal keys as bytes is a total order |
| KeyFormat.InternalSeparator | redisdb/db/dbformat.cc:86-101 | for internal keys start below limit the result is in [start, limit), start itself or one of a user key strictly in between, and both assertions hold |
| KeyFormat.InternalSuccessor | redisdb/db/dbformat.cc:103-115 | the result is not below the internal key nor longer, and the assertion holds |
| TableFormat.StoredReads | redisdb/db/format.cc:59-137 | a block stored at its handle reads back, compressed or not, with its checksum verified or not |
| TableFormat.VerifiedReadIff | redisdb/db/format.cc:59-137 | for any file: a read with checksums returns contents if and only if the file holds at the handle a payload with its type and the checksum of both, and the payload, uncompressed if the type says so, is these contents |
| TableFormat.PackedIff | redisdb/db/tablebuilder.cc:134-150 | a block is stored compressed exactly if that saves more than an eighth of it |
| TableFormat.HandleReads | redisdb/db/format.cc:7-23 | every handle of two 64-bit numbers decodes from where it was encoded |
| TableFormat.FooterReads | redisdb/db/format.cc:25-57 | the footer of any two handles decodes to them |
| TableFormat.FooterBytes | redisdb/db/format.cc:25-34 | a footer, byte by byte: the metaindex's handle, the index's, each offset before size, and zeroes |
| TableFormat.OpensMagic | redisdb/db/format.cc:36-57 | only a file that ends in the eight bytes of the magic number is opened as a table |
| TableFormat.EntriesAre | redisdb/db/block.cc:206-233 | decoding a block that was built, entry by entry, gives the pairs that were added to it |
| Tables.TableBuilder.WriteRawBlock | redisdb/db/tablebuilder.cc:134-150 | on success the file ends with payload, type and checksum and the offset is behind them; on failure the offset stays |
| Tables.TableBuilder.Flush | redisdb/db/tablebuilder.cc:123-132 | the pairs since the last block become the next one; the status is that of the flush, whether the block was appended or not |
| Tables.TableBuilder.Add | redisdb/db/tablebuilder.cc:56-82 | for any options and failures: the pair is added if the status allows, a block is written out as soon as it would be as long as the block size, and not before; each index key so far separates its block from what follows, and every appended block is where its handle says; the assertions hold |
| Tables.TableBuilder.Finish | redisdb/db/tablebuilder.cc:84-121 | on success every pair is in a block with its index key, and index, metaindex and footer are in place behind the blocks that were appended |
| Tables.SoundMore | redisdb/db/tablebuilder.cc:134-150 | a block that is appended is in place and leaves the others there; one whose append failed and left nothing behind gives its place to the next |
| Tables.IndexIsSound | redisdb/db/tablebuilder.cc:56-104 | if every block reads back, the index is one for exactly the pairs added, in order |
| TableRoundTrip.BuildTable | redisdb/db/tablebuilder.cc:56-183 | for any increasing pairs, options and failures: if building succeeds and no append of a data block failed, the bytes of the file open as a table of exactly the pairs, with or without checksums; if what failed left nothing behind and there is no compression, only then |
| TableRoundTrip.ReadTable | redisdb/db/table.cc:24-133 | every run of operations on the iterator over the bytes of a table, footer, index and blocks, walks along its pairs |
| TableRoundTrip.InternalGet | redisdb/db/table.cc:135-159 | looking in the one block that the index points to finds the first pair at or above the key if it is of the same user key, and never another one |
| TableRoundTrip.IsTableIff | redisdb/db/tablebuilder.cc:123-132 | a finished table whose failed appends left nothing behind reads as the pairs added if and only if no append of a data block failed |
| TableRoundTrip.LoseBlock | redisdb/db/tablebuilder.cc:123-132 | a table of one long value whose block cannot be appended: building it succeeds, and it is not a table of the pair |
| TableLookup.SeekAgrees | redisdb/db/dbformat.cc:117-135 | a seek among the stored rows lands where one among the rows does |
| TableLookup.Get | redisdb/db/versionset.cc:356-370 | a lookup at a snapshot in the bytes of a table answers the newest row of the key that the snapshot can see, a deletion as such, or nothing exactly if there is none |
| MemTables.MemTable.FindGreaterOrEqual | redisdb/db/memtable.cc:82-87 | comparing encoded rows finds the lower bound in the decoded order |
| MemTables.MemTable.Add | redisdb/db/memtable.cc:53-80 | adds exactly the row, encoded, to the sorted set |
| MemTables.ShortRow | redisdb/db/memtable.cc:53-80 | a short row, byte by byte |
| MemTables.MemTable.Get | redisdb/db/memtable.cc:15-51 | after any additions, in any order of sequence, returns the newest entry of the key at or below the snapshot, a deletion as such, or nothing exactly if there is none |
| MemTables.FindAtSeek | redisdb/db/dbformat.cc:150-169 | a seek to the lookup key lands on the newest visible entry of the key, if there is one |
| MemTables.FindAnswers | redisdb/db/memtable.cc:15-51 | looking along the sorted rows answers for the rows in the order they were added |
| BlockFormat.DecodeWritten | redisdb/db/block.cc:17-39 | decoding an entry that was written gives its three lengths, and its key and value bytes follow; the one-byte short cut changes nothing |
| BlockFormat.FastIsSlow | redisdb/db/block.cc:25-33 | the short cut for three one-byte lengths reads what the three varint reads would |
| BlockFormat.ShortEntry | redisdb/db/blockbuilder.cc:64-77 | an entry with short lengths, byte by byte |
| BlockFormat.EmptyBlock | redisdb/db/blockbuilder.cc:30-39 | a block without entries, byte by byte |
| BlockFormat.DecodedFitsIff | redisdb/db/block.cc:17-39 | in any block of less than 4 GiB, an entry that is decoded ends inside the block if and only if its two lengths, which are added in 32 bits, stay below 4 GiB together |
| BlockBuilding.BlockBuilder.Sharing | redisdb/db/blockbuilder.cc:46-62 | the count is the longest prefix the key shares with the last one |
| BlockBuilding.BlockBuilder.Add | redisdb/db/blockbuilder.cc:41-83 | for any interval of at least 1: the entry follows the others, restart points are exactly interval entries apart and share nothing, all other keys share all they can; the assertions hold |
| BlockBuilding.RestartEvery | redisdb/db/blockbuilder.cc:41-83 | the first entry of every interval is a restart point, whose offset is in the restart array and which shares nothing; every other key shares its longest common prefix with the key before it |
| BlockBuilding.BlockBuilder.CurrentSizeEstimate | redisdb/db/blockbuilder.cc:24-28 | the estimate is exactly how long the block would be if it were finished now |
| BlockBuilding.BlockBuilder.Finish | redisdb/db/blockbuilder.cc:30-39 | the block is the entries, the restart offsets and their number |
| BlockReading.ParsesEntry | redisdb/db/block.cc:206-233 | parsing rebuilds the key of an entry from the bytes it shares with the key before |
| BlockReading.BlockIterator.ParseNextKey | redisdb/db/block.cc:206-233 | parses the next entry, never as corrupt; the restart index moves to the last restart point before the entry |
| BlockReading.BlockIterator.FindRestart | redisdb/db/block.cc:146-168 | the binary search finds the last restart point with a key below the target, or the first |
| BlockReading.BlockIterator.Seek | redisdb/db/block.cc:143-184 | goes to the first pair added whose key is not below the target |
| BlockReading.BlockIterator.Prev | redisdb/db/block.cc:122-141 | steps back one pair by re-scanning from the restart point before it; the restart index is the entry's own |
| BlockReading.BlockIterator.RestartBefore | redisdb/db/block.cc:125-135 | finds a restart point before the current entry, and none exactly at the first entry |
| BlockReading.BlockIterator.Next | redisdb/db/block.cc:117-120 | steps forward one pair; the restart index is that of the last restart point strictly before it |
| BlockReading.OneBefore | redisdb/db/block.cc:50-50 | after stepping forward onto an entry past the first, the restart index is the entry's own if and only if the entry is not itself a restart point; there it is the one before |
| BlockReading.BlockIterator.SeekToFirst | redisdb/db/block.cc:186-189 | goes to the first pair |
| BlockReading.BlockIterator.SeekToLast | redisdb/db/block.cc:191-196 | goes to the last pair |
| BlockReading.BlockIterator.Run | redisdb/db/block.cc:41-235 | every mixed run of operations shows what a cursor over the added pairs shows |
| BlockRoundTrip.FinishedOpens | redisdb/db/block.cc:237-254 | opening what Finish returns finds the restart array, for any block of less than 4 GiB |
| BlockRoundTrip.BuildAndRead | redisdb/db/blockbuilder.cc:30-83 | any increasing pairs, any restart interval, any operations: the iterator over the finished block shows what a cursor over the pairs shows |
| Compactions.StopsEarly | redisdb/db/versionset.cc:1356-1367 | a key before the table at the pointer is in no table of the level |
| Compactions.IsBaseIff | redisdb/db/versionset.cc:1351-1370 | no deeper table covers the key exactly if it is before or behind every one of them |
| Compactions.Compaction.IsBaseLevelForKey | redisdb/db/versionset.cc:1351-1370 | for keys asked about in increasing order, with pointers that only move forward: true exactly if no deeper table covers the key |
| Compactions.Compaction.Drop | redisdb/db/db.cc:1096-1121 | an entry is dropped exactly if a newer one of its key is visible at the smallest snapshot, or it is a deletion visible there with nothing deeper |
| Compactions.Compaction.DoCompactionWork | redisdb/db/db.cc:1061-1158 | wherever output tables are closed: nothing is installed unless every output file was created and finished and no shutdown came before the end, and it fails for no other reason; what is installed is, in order, exactly the kept entries, and no table is empty |
| Compactions.KeptIsSorted | redisdb/db/db.cc:1125-1149 | the outputs are a sorted subsequence of the input |
| Compactions.ReadsPreserved | redisdb/db/db.cc:1096-1121 | at every snapshot not older than the smallest, a read of the outputs and then of the deeper levels sees what a read of the inputs and then of the deeper levels saw |
| Compactions.ViewPreserved | redisdb/db/db.cc:1096-1121 | at every such snapshot an iterator over the outputs shows what one over the inputs showed |
| Compactions.KeptIsNeeded | redisdb/db/db.cc:1096-1121 | nothing is kept in vain: some such snapshot still sees each kept value, and each kept deletion of a key with nothing deeper |
| Compactions.OverwrittenBy | redisdb/db/db.cc:1096-1121 | remembering only the last sequence of the current user key decides whether an entry is overwritten |
| WriteQueue.BuildBatchGroup | redisdb/db/db.cc:548-589 | the group ends where the size limit and the sync rule make it end, its batch is its writers' operations concatenated in order, and that of a leader alone is its own |
| WriteQueue.GroupIsLongest | redisdb/db/db.cc:563-586 | every member may join those before it, and the group ends at the end of the queue or at the first writer that may not |
| WriteQueue.GroupIsBounded | redisdb/db/db.cc:553-575 | a group of several is never above the limit: 1 MiB, or 128 KiB more than a small leader |
| WriteQueue.JoinsIff | redisdb/db/db.cc:553-575 | a writer may join if and only if it does not ask for a sync that the leader does not, and what is there with its batch, if it has one, stays within 131072 bytes more than a leader of at most 131072 bytes, or 1048576 bytes for a larger leader |
| WriteQueue.MergesIff | redisdb/db/db.cc:576-585 | the batches are merged into the temporary one exactly if some follower has a batch; otherwise the leader's own is logged |
| WriteQueue.GroupSyncs | redisdb/db/db.cc:565-568 | no writer that asks for a sync is in a group whose leader does not sync |
| GroupCommit.StepKeeps | redisdb/db/db.cc:619-697 | in every state the protocol can reach, every event trips no assertion, touches no writer that has returned, keeps the invariant, and takes back no answer, record or row |
| GroupCommit.OneLeader | redisdb/db/db.cc:619-697 | over every interleaving: at most one writer leads, and it is the front of the queue |
| GroupCommit.NothingUnsafe | redisdb/db/db.cc:548-589 | over every interleaving: no assertion of the program fails, the temporary batch is empty when a group is built, and no queued writer has returned |
| GroupCommit.LogInOrder | redisdb/db/db.cc:638-677 | over every interleaving: records hold the batches of consecutive writers in enqueue order, in disjoint increasing sequence ranges that no snapshot cuts in two |
| GroupCommit.AnsweredInOrder | redisdb/db/db.cc:680-697 | over every interleaving: exactly the writers that left the queue are answered, first come first served, and an answer never changes |
| GroupCommit.GroupAgrees | redisdb/db/db.cc:680-690 | everyone a leader answers for gets the leader's status, and a sync never rides on a leader that does not sync |
| GroupCommit.SuccessIsLogged | redisdb/db/db.cc:649-677 | a writer told it succeeded has its whole batch in one record, in memory under consecutive sequences, and synced if it asked; when it is told so is `GroupAnswers.AnswerIs` |
| GroupCommit.SnapshotIsStable | redisdb/db/db.cc:636-677 | what a snapshot taken at any moment can see never changes afterwards |
| GroupCommit.FrontMoves | redisdb/db/db.cc:628-634 | the writer at the front of a queue that is not empty can always move, and its move brings it closer to leaving: no wake-up is lost |
| GroupCommit.Drains | redisdb/db/db.cc:619-697 | from every reachable state there is a way to answer every writer in the queue |
| GroupCommit.FailStop | redisdb/db/db.cc:482-490 | once an error is recorded and no batch is under way, nothing more is logged or inserted |
| GroupAnswers.AnswerIs | redisdb/db/db.cc:652-697 | over every run: a writer is told Ok if and only if all of its leader's calls came out Ok, room, append, sync if asked for and insertion; otherwise it is told the result of the first one that did not, after which there is no other |
| GroupAnswers.ErrorIs | redisdb/db/db.cc:482-490 | over every run: the recorded error is the first one from the background or of a sync that failed, and nothing else is ever recorded |
| GroupAnswers.NumbersUsed | redisdb/db/db.cc:636-677 | over every run: sequence numbers are used without gaps, one for each operation of a round that got as far as appending, and its record starts with the first of them |
| GroupCommit.FailedSyncRefuses | redisdb/db/db.cc:666-671 | after a failed sync every later write is refused |
| GroupCommit.ChosenIs | redisdb/db/db.cc:548-589 | the group built from the front of the queue is of consecutive writers, with their operations in order |
| GroupCommit.LeftQueue | redisdb/db/db.cc:680-697 | leaving answers exactly the group and wakes the next front |
| WriteBatches.BatchRoundTrip | redisdb/db/writebatch.cc:36-80 | reading the bytes of a batch gives back its sequence, its count and exactly its writes |
| WriteBatches.BatchHeader | redisdb/db/writebatch.cc:86-100 | the header of a batch, byte by byte: the sequence in eight and the count in four, low bytes first |
| WriteBatches.ShortWrite | redisdb/db/writebatch.cc:19-30 | a short put and a short deletion, byte by byte |
| WriteBatches.UnknownTag | redisdb/db/writebatch.cc:36-80 | reading stops at a tag that is not one of the two, with the writes before it read |
| WriteBatches.WriteBatch.Put | redisdb/db/writebatch.cc:25-30 | the batch holds one more write, counted, and keeps its sequence |
| WriteBatches.WriteBatch.Delete | redisdb/db/writebatch.cc:19-23 | the batch holds one more deletion, counted, and keeps its sequence |
| WriteBatches.WriteBatch.SetSequence | redisdb/db/writebatch.cc:98-100 | renumbering keeps the writes |
| WriteBatches.WriteBatch.Append | redisdb/db/writebatch.cc:107-111 | the writes of the other batch follow, counted |
| WriteBatches.Iterate | redisdb/db/writebatch.cc:36-84 | for any bytes: inserts consecutively numbered rows for the writes before the first malformed one, and succeeds exactly if there is none and the count is right |
| Recovery.BuildTable | redisdb/db/db.cc:1285-1340 | a table that cannot be created is reported without adding a file, and one without rows trips an assertion |
| Recovery.WriteLevel0Table | redisdb/db/db.cc:737-777 | whatever becomes of the table, the status returned is success; only a table that was kept is in the edit |
| Recovery.HeldIffKept | redisdb/db/db.cc:737-777 | tables that are not kept take their rows with them and nothing else: all rows are held if and only if every table with rows was kept |
| Recovery.PlayHolds | redisdb/db/db.cc:403-456 | however memory is divided into tables, tables and memory together are the rows replayed, and no table written on the way is empty |
| Recovery.RecoverLogFile | redisdb/db/db.cc:380-468 | for any file: refused exactly for a malformed batch in a paranoid replay, aborted exactly if the last memory table is to be written, has no row and its file can be created; otherwise it succeeds with the tables kept, the last sequence, and a memory table exactly if the log stays in use and no table was written |
| Recovery.ReplayRows | redisdb/db/db.cc:403-437 | replaying committed batches gives all their rows and their last sequence |
| Recovery.ReplayIs | redisdb/db/db.cc:403-437 | for any records at all: replay fails if and only if it is paranoid and a record of twelve bytes or more is malformed; otherwise it has the rows of every record in order, and the largest last sequence |
| Recovery.RecoverTruncated | redisdb/db/db.cc:380-468 | from a log cut at any byte: never refused, and not aborted if no batch is empty; exactly the rows of the batches wholly before the cut are held, all or nothing of each, if and only if every table with rows was kept; the last sequence is theirs in any case |
| Recovery.RecoverNothing | redisdb/db/db.cc:737-777 | when no table can be kept, recovery succeeds with the last sequence of the log and none of its rows |
| Recovery.EmptyBatchesAbort | redisdb/db/db.cc:1295-1297 | a log of empty batches only aborts its own recovery |
| Recovery.RecoverAndGet | redisdb/db/db.cc:380-468 | a lookup after recovery from a log cut at any byte answers the last write of the key that the snapshot can see among the rows held; if every table with rows was kept, among all batches wholly before the cut |
| Recovery.Get | redisdb/db/db.cc:716-728 | memory and then the tables from the newest back answer the last write of all rows held |
| Recovery.SearchSeesLast | redisdb/db/db.cc:427-437 | searching memory and then the tables from the newest back sees the last write of all rows, however they were divided |
| Recovery.AnswersLast | redisdb/db/memtable.cc:15-51 | for rows replayed in order of sequence the right answer is the last write of the key the snapshot can see |
| Recovery.LastWriteIs | redisdb/db/memtable.cc:15-51 | the answer for committed batches by their writes: the value if the last write of the key that the snapshot sees is a put, and that the key is deleted if it is a deletion |
| Recovery.NoWriteIs | redisdb/db/memtable.cc:15-51 | and nothing if the snapshot sees no write of the key |
| Recovery.LookUp | redisdb/db/db.cc:403-437 | a memory table filled in replay order answers every lookup with the last visible write |
| CrashSafety.LogIsCommitted | redisdb/db/db.cc:638-641 | a log written by the protocol satisfies what recovery relies on |
| LogFiles.StepKeeps | redisdb/db/db.cc:641-677 | over every event, with appends that fail after any number of bytes: the bytes of each log file begin with its records before the first append that failed, are just its records if none has, and hold every synced one of them in the part that is on disk |
| LogFiles.FailureIs | redisdb/db/db.cc:652-652 | a file is marked as failed exactly when an append to it has failed in the run |
| LogFiles.RunIsRun | redisdb/db/db.cc:619-697 | without its files, a run is one of the record-level protocol |
| CrashSafety.AcknowledgedSurvives | redisdb/db/db.cc:649-664 | over every interleaving: an acknowledged synchronous write is in a synced record, and if no append to its file had failed before, then whatever first bytes a crash leaves of the file with all that was synced, replaying them recovers the write whole, in order and under consecutive sequences |
| CrashSafety.SoundReplays | redisdb/db/db.cc:380-468 | a file to which no append has failed replays, from any bytes a crash leaves, without a complaint to exactly the rows of its whole batches |
| CrashSafety.RecoverAcknowledged | redisdb/db/db.cc:380-468 | recovery on the bytes a crash left: refused only if it is paranoid and an append to the file once failed, aborted exactly for a last memory table without rows; otherwise, if every table with rows was kept, the acknowledged synchronous write is held |
| CrashSafety.NextRecordSurvivesIff | redisdb/db/db.cc:649-671 | in every run, the record appended next after the first append to its file that failed, in whatever way, is read back from the bytes a crash leaves if and only if the failure was harmless |
| LostWrite.AcknowledgedAndLost | redisdb/db/db.cc:649-671 | a run in which an append fails, the next synchronous write is acknowledged as successful, and its file, all of it on disk, reads back as nothing, with nothing reported |
| LostWrite.AcknowledgedAndNotSaved | redisdb/db/db.cc:737-777 | a run in which a synchronous write is acknowledged, no append fails, every byte of its file is on disk, and recovery succeeds without it |
| Proxy.Connection.Submit | redisproxy/redisproxy.cc:1019-1052 | when each finds its backend: every sub-request of a request gets the next number and its tag, and the client has been sent nothing new |
| Proxy.Connection.NoBackend | redisproxy/redisproxy.cc:827-850 | a request without a backend: the client is sent an error, and everything in flight, the numbers too, starts anew |
| Proxy.StaleReply | redisproxy/redisproxy.cc:484-489 | a run in which the reply to a request from before is sent to the client as the answer to a later one, whose own reply is dropped |
| Proxy.Connection.Callback | redisproxy/redisproxy.cc:527-616 | replies in any order: nothing sent is taken back, a first reply is kept, and afterwards the next sub-request in order has no reply yet |
| Proxy.Connection.Delivered | redisproxy/redisproxy.cc:597-616 | whatever order replies come in, the client has been sent exactly the merged replies of the longest answered prefix of its requests; since the last time a backend was missing, if one ever was |
| Proxy.Connection.Answered | redisproxy/redisproxy.cc:597-690 | without the merging functions: wherever a fan-out stands among answered requests, what the client is sent for it is, for an mget with one item per reply, the header with their number and the items in key order; for an mset OK, or the first failure as received; for a del the number of parts if all replied 1, or the first other reply |
| Proxy.OneMore | redisproxy/redisproxy.cc:592-606 | one more reply completes a fan-out exactly at its last sub-request, and the group collected so far is that request's own replies |
| Proxy.MgetCallback | redisproxy/redisproxy.cc:662-690 | the header counts the replies; their items follow in key order until a reply that is not an array |
| Proxy.MsetCallback | redisproxy/redisproxy.cc:642-660 | the first failure as received, or OK |
| Proxy.DelCounts | redisproxy/redisproxy.cc:618-640 | a del whose parts all replied 1 is answered with their number |
| Proxy.DelStops | redisproxy/redisproxy.cc:618-640 | otherwise it is answered with the first reply that is not 1, so that parts deleted are not counted |
| Proxy.MgetInKeyOrder | redisproxy/redisproxy.cc:662-690 | when every backend answers with one item, the items are sent in key order |
| Proxy.MsetOkIff | redisproxy/redisproxy.cc:642-660 | an mset is answered OK exactly if no part failed, and otherwise with the first failure |
| Mahjong.SmallestTile | mahjong/main.cc:29-108 | in a winning hand the smallest tile is in a triplet, in the pair, or starts a run: taking that meld off leaves a winning hand |
| Mahjong.Hand.GetRemain | mahjong/main.cc:11-19 | the number of tiles, wrapped to a signed byte |
| Mahjong.ReachesIsWin | mahjong/main.cc:21-110 | up to 127 tiles, taking melds off until none of the tiles is left is winning: triplets, runs and at most one pair |
| Mahjong.RunWinsIff | mahjong/main.cc:67-108 | for the tiles of the game, t, t+1 and t+2 win if and only if they are of one suit, within 1-9, 11-19 or 21-29 |
| Mahjong.WinsIff | mahjong/main.cc:21-110 | a hand of tiles of the game wins if and only if numbers of triplets of each tile, runs within a suit, and at most one pair add up to it tile by tile |
| Mahjong.Hand.HuBrand | mahjong/main.cc:21-110 | restores the hand on every path; for any number of tiles true exactly if melds can be taken off, each where the search comes to, until the number of tiles left as a signed byte is not positive; for up to 127 tiles that is a winning hand |
| Mahjong.TooManyTiles | mahjong/main.cc:21-27 | for each number of tiles from 128 to 256 a hand that does not win and is called a win |
| Multibulk.WholeLine | redisproxy/proxysession.cc:169-203 | a whole length line is read to its number and its end, whatever lies in memory behind the buffer; a wrong marker, a length of 0 or one above the limit is a protocol error |
| Multibulk.PartOfLine | redisproxy/proxysession.cc:175-185 | a line of which part has arrived is left for later if and only if two characters of it are there or nothing behind the buffer passes for a line end; otherwise the parser fails or runs past the buffer |
| Multibulk.StaleLineEnd | redisproxy/proxysession.cc:175-200 | one character of a request and a left-over line end behind it: a protocol error, though nothing is wrong with the request |
| Multibulk.ProxySession.ReadCount | redisproxy/proxysession.cc:174-204 | the number of arguments is taken exactly when its line has arrived; with fewer than two characters of it and a line end left over behind the buffer, and only then, the parser fails or runs past the buffer |
| Multibulk.ProxySession.ReadBulkLength | redisproxy/proxysession.cc:207-236 | the length of the next argument is taken exactly when its line has arrived and it is neither 0 nor above the limit; parsing breaks exactly for such a length, or as for the number of arguments |
| Multibulk.ProxySession.ReadBulk | redisproxy/proxysession.cc:238-269 | the next argument is taken exactly when all of it has arrived, into the command or the arguments kept |
| Multibulk.ProxySession.ProcessMultibulkBuffer | redisproxy/proxysession.cc:169-284 | for any request, with empty and oversized arguments too: a call resumes where the last one stopped; it is done exactly if the whole request has arrived and is acceptable, and then its bytes and no others leave the buffer; it breaks exactly if the length line of a refused argument has arrived, or a line end is left over behind the buffer and fewer than two characters of a length line have |
| Multibulk.EdgeAt | redisproxy/proxysession.cc:207-218 | while an argument arrives, the parser looks behind the buffer exactly within the first two characters of that argument's length line |
| Multibulk.ProxySession.HandOn | redisproxy/proxysession.cc:57-73 | the command, the arguments kept (or the command itself for an unknown command without any) and the request's own bytes are handed on, and the state is as before a request |
| Multibulk.ProxySession.ProxyReadCallback | redisproxy/proxysession.cc:26-82 | after each arrival every request that is now complete, up to the first refused one, has been handed on, in order, and the rest waits; parsing breaks exactly at a refused length line, or if a line end is left over behind the buffer and the stream is cut where the parser looks there |
| Multibulk.Feed | redisproxy/proxysession.cc:26-82 | any stream of multibulk requests cut into any chunks, with anything behind the buffer: exactly the requests that have arrived whole are handed on, in order, each as `Multibulk.HandedOnIsNamed` says; parsing breaks if and only if a refused length line arrives or some chunk ends in a bad cut, and at the first of these, after exactly the requests before it |
| Multibulk.HandedOnIsNamed | redisproxy/proxysession.cc:57-73 | a request is handed on under a name as long as its first argument: each character of a name in capitals is the small letter at the same place in the alphabet, a first argument that does not start with a capital is unchanged; with its own bytes, and with all arguments if the command is known here, else with the first |
| Multibulk.MixedCase | redisproxy/proxysession.cc:246-253 | if the first character is a capital every character is moved by 32, so that "Get" is not handed on as "get" |
| Multibulk.StaleIff | redisproxy/proxysession.cc:175-178 | memory behind the buffer passes for a line end exactly if it has a carriage return before any zero |
| Multibulk.EncodedGet | redisproxy/proxysession.cc:169-284 | what a client sends for a get of a short key, byte by byte |
| WordCount.InputFile | mapreduce/master/mastersort.cc:22-57 | for any limit the segments of a file are sorted, and together count exactly its words |
| WordCount.Input | mapreduce/master/mastersort.cc:22-57 | the segments of all files together count exactly the words of all files |
| WordCount.PopLeast | mapreduce/master/mastersort.cc:139-145 | the stream taken from the heap has a least word of all lines left |
| WordCount.NextWord | mapreduce/master/mastersort.cc:142-151 | when a new word comes up, everything in the table is below all lines left, so writing the table out divides no word |
| WordCount.TakeLine | mapreduce/master/mastersort.cc:153-162 | moving a line into the table loses and duplicates nothing |
| WordCount.Output | mapreduce/master/mastersort.cc:95-113 | the file is sorted by number and then word, downward, and holds exactly the table |
| WordCount.DownIs | mapreduce/master/mastersort.cc:95-113 | the order of a count file: numbers do not increase, and equal numbers have their words from the highest down |
| WordCount.Combine | mapreduce/master/mastersort.cc:115-172 | for any limit the count files together hold every word once with its exact total |
| WordCount.Merge | mapreduce/master/mastersort.cc:219-259 | the output is in non-increasing order of number and holds exactly the lines of the count files |
| WordCount.MasterSort | mapreduce/master/mastersort.cc:22-259 | for any files and any limit: every word once, with its exact number of occurrences, by number from the highest down |
| WordCount.ShardText | mapreduce/sort/shareds.cc:42-66 | every count of a text goes to the shard of its word, and nothing is lost |
| WordCount.ReadShard | mapreduce/sort/shareds.cc:70-96 | the table of a shard has the total of each of its words |
| WordCount.SortShards | mapreduce/sort/shareds.cc:98-121 | no word is in two shards, so the files together hold every word once with its exact total |
| WordCount.ShardSort | mapreduce/sort/shareds.cc:42-183 | for any hash and number of shards: the same result as the unsharded job |
| WordCount.SameLines | mapreduce/sort/shareds.cc:42-183 | the outputs of the two jobs are the same lines, up to the order of words that occur equally often |

## Left out

- Reads.Get: the parts stay as they are during the lookup; `ReadRaces.Get` is the lookup while they change.
- ReadRaces.Get: the reads of `mem` and `imm` see the pointers as they are at that moment; that the reads and the writes of these pointers race in the sense of the C++ memory model is not modelled.
- Child iterators are values held by their parent, so aliasing between iterators and the validity cache of `IteratorWrapper` are not modelled.
- Status objects: read errors, `status()` of iterators, corrupted internal keys in `DBIter` and in the compaction loop.
- Crc32c.ByteTableIs: of the 1280 literals of `crc32c.cc` those at powers of two are compared; the other entries of the tables follow from them by linearity in the model, and the literals in their places are not compared.
- Reader.LogReader.ReadRecord: with an initial offset, a call that met type 5 before any record was returned is not followed by another one.
- TableRoundTrip.BuildTable: blocks of 4 GiB and more are not claimed to read back; a failed append that left some bytes behind shifts what follows, and of such a file nothing is claimed; filters, the block cache and a file shorter than its recorded size are not modelled.
- TableRoundTrip.ReadTable: the iterators over the index and over the blocks are cursors over the entries decoded from the bytes; that the block iterator shows these is `BlockReading.BlockIterator.Run`.
- BlockRoundTrip.BuildAndRead: blocks of 4 GiB and more, whose offsets do not fit 32 bits, are not claimed to read back.
- Compactions.Compaction.DoCompactionWork: the smallest snapshot is below the largest 56-bit sequence number, which no run of the program reaches; entries that do not parse are not modelled, nor what becomes of the output files when installing fails.
- MemTables.MemTable.Add: the skip list is a sorted set; its levels and its concurrent readers are not modelled, and the caller gives each row of a key a sequence of its own, as the skip list asserts.
- GroupCommit.Drains: that the scheduler runs every enabled thread, and that compaction makes room, is not modelled; a way to drain the queue exists from every state.
- GroupCommit.SuccessIsLogged: `tmpbatch` is taken as allocated, which the constructor does not do.
- GroupCommit.FailStop: only `DB::Write` logs; a batch already under way when an error is recorded is still finished.
- Recovery.BuildTable: a table that is kept is one that reads back; when a table reported as finished does is `TableRoundTrip.IsTableIff`.
- Recovery.RecoverLogFile: several log files in a row, and the manifest; a table that the edit names although its file was removed is counted, and what opening it later does is not modelled.
- Recovery.RecoverTruncated: the log is one written by the protocol; strings are shorter than 4 GiB and a batch has fewer than 2 to the 31 writes.
- Proxy.MsetCallback: a reply that is neither a status nor text has no text to compare, which the program does not guard against; it counts as a failure here.
- Proxy.DelCounts: no sum of the replies is claimed, because the program stops at the first reply other than 1.
- Proxy.Connection.Submit: every sub-request finds its backend or, as in `Proxy.Connection.NoBackend`, none of the request does; a fan-out of which only some do, loss of a backend that has been sent a request, locally answered commands and the mode without a cluster are not modelled.
- CrashSafety.NextRecordSurvivesIff: of records further behind a failed append nothing is claimed.
- CrashSafety.AcknowledgedSurvives: log files are created in the run; one kept in use from before it, as `reuselogs` allows, is not modelled.
- Live snapshots are not protected by a list, since `SnapshotList` never inserts; compaction is stated relative to the smallest snapshot it was given.
- Multibulk.Feed: after parsing breaks nothing is claimed; inline requests, and requests with a negative number or length, are not part of the streams.
- `REDIS_MBULK_BIG_ARG` and `Buffer` are declared in files that are not part of this model: the limit is a parameter, and so is the memory behind the buffer.
- WordCount.PopLeast: the heap is any way to find a least line; the standard library's heap functions are not modelled.
- WordCount.MasterSort: words are values with a total order; the text of the intermediate files (tabs, decimal numbers) is not modelled.
- GroupCommit.OneLeader: what makes `MakeRoomForWrite` wait, slow down or switch logs is left open: it may do so at any time.
- The memcached server and the arena allocator, which are independent of the above and easier.
- Snappy, which is any lossless codec here; filters, the table and block caches, file names, the manifest and the version set's choice of compactions.
